/** The lock-free ring buffer shared by one writer and one reader, in steps as small as one byte. */
module RingSteps {
  import opened Text

  /** Where byte k behind the pointer p is: the pointer itself may stand one past the last slot. */
  function Slot(size: nat, p: nat, k: nat): (i: nat)
    requires p <= size && k < size
    ensures i < size
  {
    if p + k < size then p + k else p + k - size
  }

  /** A pointer moved on by n bytes, as both pointers are: it is reset only when it would leave the buffer. */
  function Next(size: nat, p: nat, n: nat): (q: nat)
    requires p <= size && n <= size
    ensures q <= size
  {
    if p + n > size then p + n - size else p + n
  }

  lemma NextSlot(size: nat, p: nat, n: nat, k: nat)
    requires p <= size && n + k < size
    ensures Slot(size, Next(size, p, n), k) == Slot(size, p, n + k)
  {
  }

  lemma NextNext(size: nat, p: nat, n: nat, m: nat)
    requires p <= size && n + m <= size
    ensures Next(size, Next(size, p, n), m) == Next(size, p, n + m)
  {
  }

  /** What the writer is doing: nothing; copying, with some bytes still to do; or about to publish what it copied. */
  datatype Writer = Idle | Copying(data: seq<byte>, todo: set<nat>) | Copied(data: seq<byte>)

  /** The reader likewise, with the bytes it has fetched so far. */
  datatype Reader = Idle | Fetching(data: seq<byte>, todo: set<nat>) | Fetched(data: seq<byte>)

  /** The shared memory, the two threads, and the histories of bytes accepted and delivered. */
  datatype Ring = Ring(
    buffer: seq<byte>,
    pr: nat,
    pw: nat,
    filled: int,
    writer: Writer,
    reader: Reader,
    accepted: seq<byte>,
    delivered: seq<byte>
  )

  function Indices(n: nat): (r: set<nat>)
    ensures forall k: nat :: k in r <==> k < n
  {
    if n == 0 then {} else Indices(n - 1) + {n - 1}
  }

  ghost predicate Start(s: Ring) {
    s.buffer != [] && s.pr == s.pw == 0 && s.filled == 0
    && s.writer.Idle? && s.reader.Idle? && s.accepted == s.delivered == []
  }

  // ---------------------------------------------------------------- steps

  /** `write` loads the filled size and takes the data on, or returns an error. */
  ghost predicate WriteBegins(s: Ring, s': Ring, data: seq<byte>) {
    s.writer.Idle? && data != []
    && s' == if |data| > |s.buffer| - s.filled then s
             else s.(writer := Copying(data, Indices(|data|)), accepted := s.accepted + data)
  }

  /** Its `memcpy` calls move the bytes in any order. */
  ghost predicate WriteCopies(s: Ring, s': Ring, k: nat) {
    s.writer.Copying? && k in s.writer.todo
    && k < |s.writer.data| && k < |s.buffer| && s.pw <= |s.buffer|
    && s' == s.(buffer := s.buffer[Slot(|s.buffer|, s.pw, k) := s.writer.data[k]],
                writer := s.writer.(todo := s.writer.todo - {k}))
  }

  ghost predicate WriteMoves(s: Ring, s': Ring) {
    s.writer.Copying? && s.writer.todo == {}
    && s.pw <= |s.buffer| && |s.writer.data| <= |s.buffer|
    && s' == s.(pw := Next(|s.buffer|, s.pw, |s.writer.data|), writer := Copied(s.writer.data))
  }

  /** The atomic addition, after which `write` returns. */
  ghost predicate WriteAdds(s: Ring, s': Ring) {
    s.writer.Copied? && s' == s.(filled := s.filled + |s.writer.data|, writer := Writer.Idle)
  }

  /** `read` loads the filled size and settles how much it can take. */
  ghost predicate ReadBegins(s: Ring, s': Ring, length: nat, scratch: seq<byte>) {
    s.reader.Idle? && length > 0
    && |scratch| == (if length > s.filled then s.filled else length)
    && s' == if scratch == [] then s else s.(reader := Fetching(scratch, Indices(|scratch|)))
  }

  ghost predicate ReadCopies(s: Ring, s': Ring, k: nat) {
    s.reader.Fetching? && k in s.reader.todo
    && k < |s.reader.data| && k < |s.buffer| && s.pr <= |s.buffer|
    && s' == s.(reader := Fetching(s.reader.data[k := s.buffer[Slot(|s.buffer|, s.pr, k)]], s.reader.todo - {k}))
  }

  ghost predicate ReadMoves(s: Ring, s': Ring) {
    s.reader.Fetching? && s.reader.todo == {}
    && s.pr <= |s.buffer| && |s.reader.data| <= |s.buffer|
    && s' == s.(pr := Next(|s.buffer|, s.pr, |s.reader.data|), reader := Fetched(s.reader.data))
  }

  /** The atomic subtraction, after which `read` returns the bytes it fetched. */
  ghost predicate ReadSubtracts(s: Ring, s': Ring) {
    s.reader.Fetched?
    && s' == s.(filled := s.filled - |s.reader.data|, reader := Reader.Idle, delivered := s.delivered + s.reader.data)
  }

  datatype Action =
    | BeginWrite(data: seq<byte>) | CopyIn(k: nat) | MoveWriter | Add
    | BeginRead(length: nat, scratch: seq<byte>) | CopyOut(k: nat) | MoveReader | Subtract

  ghost predicate Step(s: Ring, a: Action, s': Ring) {
    match a
    case BeginWrite(data) => WriteBegins(s, s', data)
    case CopyIn(k) => WriteCopies(s, s', k)
    case MoveWriter => WriteMoves(s, s')
    case Add => WriteAdds(s, s')
    case BeginRead(length, scratch) => ReadBegins(s, s', length, scratch)
    case CopyOut(k) => ReadCopies(s, s', k)
    case MoveReader => ReadMoves(s, s')
    case Subtract => ReadSubtracts(s, s')
  }

  /** Every interleaving of the two threads. */
  ghost predicate Run(states: seq<Ring>, actions: seq<Action>) {
    |states| == |actions| + 1 && Start(states[0])
    && forall i :: 0 <= i < |actions| ==> Step(states[i], actions[i], states[i + 1])
  }

  // ---------------------------------------------------------------- invariant

  /** Bytes accepted and not yet added to the filled size. */
  function InFlight(s: Ring): nat {
    if s.writer.Idle? then 0 else |s.writer.data|
  }

  /** Bytes behind the write pointer since the start. */
  function Behind(s: Ring): int {
    |s.accepted| - (if s.writer.Copying? then |s.writer.data| else 0)
  }

  /** Bytes behind the read pointer since the start. */
  function Taken(s: Ring): nat {
    |s.delivered| + (if s.reader.Fetched? then |s.reader.data| else 0)
  }

  /** Bytes between the pointers. */
  function Gap(s: Ring): int {
    Behind(s) - Taken(s)
  }

  ghost predicate Counts(s: Ring) {
    var size := |s.buffer|;
    size > 0 && s.pr <= size && s.pw <= size
    && s.filled == |s.accepted| - InFlight(s) - |s.delivered|
    && |s.accepted| - |s.delivered| <= size
    && (if s.reader.Idle? then 0 else |s.reader.data|) <= s.filled
    && 0 <= Gap(s) <= size && s.pw == Next(size, s.pr, Gap(s))
  }

  /** The bytes between the pointers are those accepted and not yet taken. */
  ghost predicate Stored(s: Ring)
    requires Counts(s)
  {
    forall k :: 0 <= k < Gap(s) ==> s.buffer[Slot(|s.buffer|, s.pr, k)] == s.accepted[Taken(s) + k]
  }

  ghost predicate WriterHolds(s: Ring)
    requires Counts(s)
  {
    (!s.writer.Idle? ==> |s.writer.data| <= |s.accepted| && s.accepted[|s.accepted| - |s.writer.data|..] == s.writer.data)
    && (s.writer.Copying? ==> s.writer.todo <= Indices(|s.writer.data|))
    && (s.writer.Copying? ==>
          forall k :: 0 <= k < |s.writer.data| && k !in s.writer.todo ==>
            s.buffer[Slot(|s.buffer|, s.pw, k)] == s.writer.data[k])
  }

  ghost predicate ReaderHolds(s: Ring)
    requires Counts(s)
  {
    s.delivered == s.accepted[..|s.delivered|]
    && (s.reader.Fetching? ==> s.reader.todo <= Indices(|s.reader.data|))
    && (s.reader.Fetching? ==>
          forall k :: 0 <= k < |s.reader.data| && k !in s.reader.todo ==>
            s.reader.data[k] == s.accepted[|s.delivered| + k])
    && (s.reader.Fetched? ==> s.reader.data == s.accepted[|s.delivered|..Taken(s)])
  }

  ghost predicate Inv(s: Ring) {
    Counts(s) && Stored(s) && WriterHolds(s) && ReaderHolds(s)
  }

  /** Between two calls of the reader, a write is taken on exactly if its data fits beside the unread bytes. */
  lemma WriteTakenOn(s: Ring, s': Ring, data: seq<byte>)
    requires Inv(s) && WriteBegins(s, s', data) && s.reader.Idle?
    ensures s'.writer.Copying? <==> |s.accepted| - |s.delivered| + |data| <= |s.buffer|
    ensures s'.writer.Copying? ==> s'.writer.data == data && s'.accepted == s.accepted + data
    ensures !s'.writer.Copying? ==> s' == s
  {
  }

  /** Between two calls of the writer, a read takes as many bytes as it wants and are unread. */
  lemma ReadTakes(s: Ring, s': Ring, length: nat, scratch: seq<byte>)
    requires Inv(s) && ReadBegins(s, s', length, scratch) && s.writer.Idle?
    ensures var unread := |s.accepted| - |s.delivered|;
      |scratch| == (if length < unread then length else unread)
      && (if unread == 0 then s' == s else s'.reader.Fetching? && |s'.reader.data| == |scratch|)
  {
  }

  lemma StartHolds(s: Ring)
    requires Start(s)
    ensures Inv(s)
  {
  }

  /** The writer's slots are not among those between the pointers. */
  lemma Apart(s: Ring, k: nat)
    requires Counts(s) && s.writer.Copying? && k < |s.writer.data|
    ensures k < |s.buffer| && Slot(|s.buffer|, s.pw, k) == Slot(|s.buffer|, s.pr, Gap(s) + k)
    ensures forall i :: 0 <= i < |s.buffer| && i != Gap(s) + k ==>
      Slot(|s.buffer|, s.pr, i) != Slot(|s.buffer|, s.pw, k)
  {
    NextSlot(|s.buffer|, s.pr, Gap(s), k);
  }

  lemma BeginWriteKeeps(s: Ring, s': Ring, data: seq<byte>)
    requires Inv(s) && WriteBegins(s, s', data)
    ensures Inv(s')
  {
    if s' != s {
      assert s'.accepted[|s'.accepted| - |data|..] == data;
      assert s'.accepted[..|s.accepted|] == s.accepted;
      assert s'.accepted[..|s.delivered|] == s.accepted[..|s.delivered|];
    }
  }

  lemma CopyInKeeps(s: Ring, s': Ring, k: nat)
    requires Inv(s) && WriteCopies(s, s', k)
    ensures Inv(s')
  {
    Apart(s, k);
    CopyInStores(s, s', k);
    CopyInCopies(s, s', k);
    hide Stored, WriterHolds, Slot;
  }

  lemma CopyInStores(s: Ring, s': Ring, k: nat)
    requires Counts(s) && Stored(s) && WriteCopies(s, s', k) && Counts(s')
    ensures Stored(s')
  {
    Apart(s, k);
    hide Slot;
  }

  lemma CopyInCopies(s: Ring, s': Ring, k: nat)
    requires Counts(s) && WriterHolds(s) && WriteCopies(s, s', k) && Counts(s')
    ensures WriterHolds(s')
  {
    forall j | 0 <= j < |s'.writer.data| && j !in s'.writer.todo
      ensures s'.buffer[Slot(|s'.buffer|, s'.pw, j)] == s'.writer.data[j]
    {
      if j != k {
        assert Slot(|s.buffer|, s.pw, j) != Slot(|s.buffer|, s.pw, k);
      }
    }
  }

  lemma MoveWriterKeeps(s: Ring, s': Ring)
    requires Inv(s) && WriteMoves(s, s')
    ensures Inv(s')
  {
    NextNext(|s.buffer|, s.pr, Gap(s), |s.writer.data|);
    MoveWriterStores(s, s');
    hide Stored, Slot, Next;
  }

  lemma MoveWriterStores(s: Ring, s': Ring)
    requires Counts(s) && Stored(s) && WriterHolds(s) && WriteMoves(s, s') && Counts(s')
    ensures Stored(s')
  {
    forall k | 0 <= k < Gap(s')
      ensures s'.buffer[Slot(|s'.buffer|, s'.pr, k)] == s'.accepted[Taken(s') + k]
    {
      if k >= Gap(s) {
        Apart(s, k - Gap(s));
        assert s.accepted[|s.accepted| - |s.writer.data|..][k - Gap(s)] == s.accepted[Taken(s) + k];
      }
    }
  }

  lemma AddKeeps(s: Ring, s': Ring)
    requires Inv(s) && WriteAdds(s, s')
    ensures Inv(s')
  {
  }

  lemma BeginReadKeeps(s: Ring, s': Ring, length: nat, scratch: seq<byte>)
    requires Inv(s) && ReadBegins(s, s', length, scratch)
    ensures Inv(s')
  {
  }

  lemma CopyOutKeeps(s: Ring, s': Ring, k: nat)
    requires Inv(s) && ReadCopies(s, s', k)
    ensures Inv(s')
  {
  }

  lemma MoveReaderKeeps(s: Ring, s': Ring)
    requires Inv(s) && ReadMoves(s, s')
    ensures Inv(s')
  {
    NextNext(|s.buffer|, s.pr, |s.reader.data|, Gap(s) - |s.reader.data|);
    MoveReaderStores(s, s');
    hide Stored, Slot, Next;
  }

  lemma MoveReaderStores(s: Ring, s': Ring)
    requires Counts(s) && Stored(s) && ReadMoves(s, s') && Counts(s')
    ensures Stored(s')
  {
    var n := |s.reader.data|;
    forall k | 0 <= k < Gap(s')
      ensures s'.buffer[Slot(|s'.buffer|, s'.pr, k)] == s'.accepted[Taken(s') + k]
    {
      NextSlot(|s.buffer|, s.pr, n, k);
    }
  }

  lemma SubtractKeeps(s: Ring, s': Ring)
    requires Inv(s) && ReadSubtracts(s, s')
    ensures Inv(s')
  {
    assert s'.delivered == s.accepted[..|s'.delivered|];
  }

  lemma StepKeeps(s: Ring, a: Action, s': Ring)
    requires Inv(s) && Step(s, a, s')
    ensures Inv(s')
  {
    hide Inv, WriteBegins, WriteCopies, WriteMoves, WriteAdds, ReadBegins, ReadCopies, ReadMoves, ReadSubtracts;
    match a
    case BeginWrite(data) => BeginWriteKeeps(s, s', data);
    case CopyIn(k) => CopyInKeeps(s, s', k);
    case MoveWriter => MoveWriterKeeps(s, s');
    case Add => AddKeeps(s, s');
    case BeginRead(length, scratch) => BeginReadKeeps(s, s', length, scratch);
    case CopyOut(k) => CopyOutKeeps(s, s', k);
    case MoveReader => MoveReaderKeeps(s, s');
    case Subtract => SubtractKeeps(s, s');
  }

  lemma {:induction false} RunHolds(states: seq<Ring>, actions: seq<Action>, i: nat)
    requires Run(states, actions) && i < |states|
    ensures Inv(states[i])
  {
    if i == 0 {
      StartHolds(states[0]);
    } else {
      hide Step, Inv;
      RunHolds(states, actions, i - 1);
      StepKeeps(states[i - 1], actions[i - 1], states[i]);
    }
  }

  // ---------------------------------------------------------------- what every run shows

  /** Bytes of writes that have returned. */
  function Written(s: Ring): seq<byte>
    requires InFlight(s) <= |s.accepted|
  {
    s.accepted[..|s.accepted| - InFlight(s)]
  }

  /** In every interleaving the bytes read are a prefix of the bytes written, in order, without loss or repetition. */
  lemma DeliveredIsPrefix(states: seq<Ring>, actions: seq<Action>, i: nat)
    requires Run(states, actions) && i < |states|
    ensures var s := states[i];
      InFlight(s) <= |s.accepted| && s.delivered <= Written(s)
      && s.filled == |Written(s)| - |s.delivered| && s.filled >= 0
      && InFlight(s) + s.filled <= |s.buffer|
  {
    RunHolds(states, actions, i);
  }

  /** No step of the writer changes a byte the reader has still to fetch, and the two never touch the same slot. */
  lemma NoOverwrite(states: seq<Ring>, actions: seq<Action>, i: nat)
    requires Run(states, actions) && i < |actions|
    ensures var s, s' := states[i], states[i + 1];
      |s.buffer| == |s'.buffer| && s.pr <= |s.buffer| && 0 <= Gap(s) <= |s.buffer|
      && (forall k :: 0 <= k < Gap(s) ==>
            s'.buffer[Slot(|s.buffer|, s.pr, k)] == s.buffer[Slot(|s.buffer|, s.pr, k)] == s.accepted[Taken(s) + k])
    ensures actions[i].CopyIn? && states[i].reader.Fetching? ==>
      forall j :: 0 <= j < |states[i].reader.data| ==>
        j < |states[i].buffer|
        && Slot(|states[i].buffer|, states[i].pr, j) != Slot(|states[i].buffer|, states[i].pw, actions[i].k)
  {
    RunHolds(states, actions, i);
    var s, s' := states[i], states[i + 1];
    assert Step(s, actions[i], s');
    if actions[i].CopyIn? { Apart(s, actions[i].k); }
  }

  /** With both threads between calls, the buffer holds exactly the bytes written and not read. */
  lemma Quiescent(states: seq<Ring>, actions: seq<Action>, i: nat)
    requires Run(states, actions) && i < |states| && states[i].writer.Idle? && states[i].reader.Idle?
    ensures var s := states[i];
      |s.delivered| <= |s.accepted| && s.accepted == s.delivered + s.accepted[|s.delivered|..]
      && s.filled == |s.accepted| - |s.delivered|
      && s.filled <= |s.buffer| && s.pr <= |s.buffer|
      && forall k :: 0 <= k < s.filled ==>
           s.buffer[Slot(|s.buffer|, s.pr, k)] == s.accepted[|s.delivered| + k]
  {
    RunHolds(states, actions, i);
    var s := states[i];
    assert s.accepted == s.accepted[..|s.delivered|] + s.accepted[|s.delivered|..];
  }

  /** Neither thread is ever held up: whatever it has still to do, its next step is possible. */
  lemma NeverStuck(states: seq<Ring>, actions: seq<Action>, i: nat)
    requires Run(states, actions) && i < |states|
    ensures var s := states[i];
      (s.writer.Copying? ==> forall k :: k in s.writer.todo ==> exists s' :: Step(s, CopyIn(k), s'))
      && (s.writer.Copying? && s.writer.todo == {} ==> exists s' :: Step(s, MoveWriter, s'))
      && (s.reader.Fetching? ==> forall k :: k in s.reader.todo ==> exists s' :: Step(s, CopyOut(k), s'))
      && (s.reader.Fetching? && s.reader.todo == {} ==> exists s' :: Step(s, MoveReader, s'))
  {
    RunHolds(states, actions, i);
    var s := states[i];
    if s.writer.Copying? { WriterMayStep(s); }
    if s.reader.Fetching? { ReaderMayStep(s); }
  }

  lemma WriterMayStep(s: Ring)
    requires Inv(s) && s.writer.Copying?
    ensures forall k :: k in s.writer.todo ==> exists s' :: Step(s, CopyIn(k), s')
    ensures s.writer.todo == {} ==> exists s' :: Step(s, MoveWriter, s')
  {
    forall k | k in s.writer.todo ensures exists s' :: Step(s, CopyIn(k), s') {
      var s' := s.(buffer := s.buffer[Slot(|s.buffer|, s.pw, k) := s.writer.data[k]],
                   writer := s.writer.(todo := s.writer.todo - {k}));
      assert Step(s, CopyIn(k), s');
    }
    if s.writer.todo == {} {
      assert Step(s, MoveWriter, s.(pw := Next(|s.buffer|, s.pw, |s.writer.data|), writer := Copied(s.writer.data)));
    }
  }

  lemma ReaderMayStep(s: Ring)
    requires Inv(s) && s.reader.Fetching?
    ensures forall k :: k in s.reader.todo ==> exists s' :: Step(s, CopyOut(k), s')
    ensures s.reader.todo == {} ==> exists s' :: Step(s, MoveReader, s')
  {
    forall k | k in s.reader.todo ensures exists s' :: Step(s, CopyOut(k), s') {
      var s' := s.(reader := Fetching(s.reader.data[k := s.buffer[Slot(|s.buffer|, s.pr, k)]], s.reader.todo - {k}));
      assert Step(s, CopyOut(k), s');
    }
    if s.reader.todo == {} {
      assert Step(s, MoveReader, s.(pr := Next(|s.buffer|, s.pr, |s.reader.data|), reader := Fetched(s.reader.data)));
    }
  }
}
