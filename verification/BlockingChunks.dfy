/** When the chunk calls of the blocking ring block each other, in runs of all calls and in runs of chunk calls alone. */
module BlockingChunks {
  import opened Text
  import opened Arithmetic
  import opened BlockingRing

  /** Size of the ring, threshold asked for, and the chunks of reader and writer. */
  datatype Setup = Setup(size: nat, threshold: int, readChunk: nat, writeChunk: nat)

  function Larger(a: int, b: int): int {
    if a < b then b else a
  }

  /** The threshold `rb_set_threshold` sets. */
  function Bound(p: Setup): int {
    if p.threshold <= p.size then p.threshold else p.size
  }

  predicate Flagless(r: Ring) {
    !r.doneWrite && !r.abortRead && !r.abortWrite && !r.unblockReader
  }

  /** Reader and writer are inside chunk calls, and neither can go on. */
  predicate Stuck(s: State, p: Setup) {
    Fits(s) && Flagless(s.ring)
    && !s.reader.Out? && s.reader.chunk && s.reader.length == p.readChunk <= s.ring.size
    && !s.writer.Out? && s.writer.chunk && |s.writer.data| == p.writeChunk <= s.ring.size
    && NoChunk(s.ring, p.readChunk) && NoChunkRoom(s.ring, p.writeChunk)
  }

  /** A call that sets a flag, or a timed wait that ends. */
  predicate Interrupts(a: Action) {
    a.TimeOutReader? || a.TimeOutWriter? || a.DoneWrite? || a.DoneRead? || a.AbortRead? || a.AbortWrite? || a.UnblockReader?
  }

  lemma StuckStep(s: State, a: Action, s': State, p: Setup)
    requires Stuck(s, p) && Step(s, a, s') && !Interrupts(a)
    ensures Stuck(s', p) && s'.ring.stored == s.ring.stored && s'.accepted == s.accepted && s'.delivered == s.delivered
  {
    if a.RunWrite? {
      assert s.writer.data[0..] == s.writer.data;
      assert s.accepted + s.writer.data[..0] == s.accepted;
    }
  }

  /** Once stuck, the two wake each other for ever: no step but an interruption moves a byte or ends a call. */
  lemma {:induction false} StuckForever(states: seq<State>, actions: seq<Action>, p: Setup, i: nat)
    requires |states| == |actions| + 1 && Stuck(states[0], p) && i < |states|
    requires forall k :: 0 <= k < |actions| ==> Step(states[k], actions[k], states[k + 1]) && !Interrupts(actions[k])
    ensures Stuck(states[i], p) && states[i].ring.stored == states[0].ring.stored
    ensures states[i].accepted == states[0].accepted && states[i].delivered == states[0].delivered
  {
    if i > 0 {
      StuckForever(states, actions, p, i - 1);
      StuckStep(states[i - 1], actions[i - 1], states[i], p);
    }
  }

  /** A run of any calls in which the threshold is set once, first. */
  ghost predicate FixedRun(states: seq<State>, actions: seq<Action>, p: Setup) {
    Run(states, actions) && states[0].ring.size == p.size
    && |actions| > 0 && actions[0] == SetThreshold(p.threshold)
    && forall i :: 0 < i < |actions| ==> !actions[i].SetThreshold?
  }

  // ---------------------------------------------------------------- mixed with stream calls

  /** An unset latch means that fewer bytes than the threshold have come. */
  predicate Unlatched(r: Ring, bound: int) {
    r.threshold == bound && (r.latch || r.stored == [] || |r.stored| < bound)
  }

  lemma {:induction false} WritingUnlatched(r: Ring, data: seq<byte>, bound: int)
    requires Unlatched(r, bound)
    ensures Unlatched(Writing(r, data).ring, bound)
    decreases |data|
  {
    if data != [] && !NoRoom(r) {
      var n := Min(r.size - |r.stored|, |data|);
      WritingUnlatched(WithPiece(r, data[..n]), data[n..], bound);
    }
  }

  lemma ReadKeepsLatch(s: State)
    requires s.reader.Asking? && Fits(s)
    ensures ReadOf(s).ring == s.ring.(stored := ReadOf(s).ring.stored)
    ensures !s.ring.latch ==> ReadOf(s).ring.stored == s.ring.stored
    ensures |ReadOf(s).ring.stored| <= |s.ring.stored|
  {
    var result := ReadOf(s);
    assert |s.ring.stored| == |result.taken| + |result.ring.stored|;
    if result.taken == [] { assert result.ring.stored == s.ring.stored; }
  }

  lemma StepUnlatched(s: State, a: Action, s': State, bound: int)
    requires Unlatched(s.ring, bound) && Step(s, a, s') && !a.SetThreshold?
    ensures Unlatched(s'.ring, bound)
  {
    hide Writing, ReadOf;
    if a.RunWrite? && !s.writer.chunk { WritingUnlatched(s.ring, s.writer.data, bound); }
    if a.RunRead? { ReadKeepsLatch(s); }
  }

  lemma {:induction false} RunUnlatched(states: seq<State>, actions: seq<Action>, p: Setup, i: nat)
    requires FixedRun(states, actions, p) && 0 < i < |states|
    ensures Unlatched(states[i].ring, Bound(p)) && states[i].ring.size == p.size
  {
    assert Step(states[i - 1], actions[i - 1], states[i]);
    if i > 1 {
      RunUnlatched(states, actions, p, i - 1);
      StepUnlatched(states[i - 1], actions[i - 1], states[i], Bound(p));
    }
    hide Step;
    if p.size > 0 { RunKeeps(states, actions, i); } else { EmptyRingBlocks(states, actions, i); }
  }

  /** The chunks fit, and one of them is empty or they and the threshold need too much. */
  predicate CanBlock(p: Setup) {
    p.readChunk <= p.size && p.writeChunk <= p.size
    && (p.readChunk == 0 || p.writeChunk == 0 || Larger(p.readChunk, Bound(p)) + p.writeChunk > p.size + 1)
  }

  ghost predicate Blocks(p: Setup) {
    exists states, actions :: FixedRun(states, actions, p) && Stuck(states[|actions|], p)
  }

  /** With stored bytes nobody has read, between calls. */
  function Filled(p: Setup, n: nat): State {
    var bytes := seq(n, i => 0);
    State(Ring(p.size, bytes, Bound(p), n > 0 && n >= Bound(p), false, false, false, false),
          Reader.Out, Writer.Out, bytes, [], false)
  }

  lemma FillStep(p: Setup, n: nat)
    requires n <= p.size
    ensures Step(Filled(p, 0).(writer := Offering(seq(n, i => 0), 0, false)), RunWrite, Filled(p, n))
  {
    var data: seq<byte> := seq(n, i => 0);
    var s := Filled(p, 0).(writer := Offering(data, 0, false));
    assert s.ring.stored + data[..n] == data && data[n..] == [];
    assert [] + data[..n] == data;
    if n > 0 {
      WritingStep(s.ring, data);
    } else {
      assert data == [];
    }
  }

  /** The fill level at which the two calls meet. */
  function Meeting(p: Setup): nat {
    if p.writeChunk == 0 then 0 else if p.readChunk == 0 then p.size else Larger(p.readChunk, Bound(p)) - 1
  }

  /** Both threads call for their chunks. */
  function Asked(p: Setup, n: nat, both: bool): State {
    Filled(p, n).(reader := Asking(p.readChunk, 0, true),
                  writer := if both then Offering(seq(p.writeChunk, i => 0), 0, true) else Writer.Out)
  }

  lemma AskSteps(p: Setup, n: nat)
    ensures Step(Filled(p, n), CallReadChunk(p.readChunk), Asked(p, n, false))
    ensures Step(Asked(p, n, false), CallWriteChunk(seq(p.writeChunk, i => 0)), Asked(p, n, true))
  {
  }

  lemma MeetingStuck(p: Setup)
    requires p.size > 0 && CanBlock(p)
    ensures Meeting(p) <= p.size && Stuck(Asked(p, Meeting(p), true), p)
  {
  }

  function StartState(p: Setup): State {
    State(Ring(p.size, [], 0, false, false, false, false, false), Reader.Out, Writer.Out, [], [], false)
  }

  lemma FirstSteps(p: Setup, n: nat)
    ensures Start(StartState(p)) && StartState(p).ring.size == p.size
    ensures Step(StartState(p), SetThreshold(p.threshold), Filled(p, 0))
    ensures Step(Filled(p, 0), CallWrite(seq(n, i => 0)), Filled(p, 0).(writer := Offering(seq(n, i => 0), 0, false)))
  {
    assert Filled(p, 0).ring.stored == [];
  }

  lemma BlockingRun(p: Setup)
    requires p.size > 0 && CanBlock(p)
    ensures Blocks(p)
  {
    MeetingStuck(p);
    var n := Meeting(p);
    FirstSteps(p, n);
    FillStep(p, n);
    AskSteps(p, n);
    hide Step, Meeting, Filled, Asked, Stuck, Start, StartState, CanBlock, Bound;
    var bytes: seq<byte> := seq(n, i => 0);
    var states := [StartState(p), Filled(p, 0), Filled(p, 0).(writer := Offering(bytes, 0, false)),
                   Filled(p, n), Asked(p, n, false), Asked(p, n, true)];
    var actions := [SetThreshold(p.threshold), CallWrite(bytes), RunWrite, CallReadChunk(p.readChunk),
                    CallWriteChunk(seq(p.writeChunk, i => 0))];
    forall i | 0 <= i < 5 ensures Step(states[i], actions[i], states[i + 1]) {
    }
    assert FixedRun(states, actions, p);
  }

  /**
   * Some run of stream and chunk calls with the threshold fixed blocks a chunk reader and a chunk writer for good
   * exactly when the larger of read chunk and threshold together with the write chunk needs more than a byte over
   * the size. (A chunk larger than the ring is refused; an empty one waits until interrupted.)
   */
  lemma BlockingExact(p: Setup)
    requires p.size > 0
    ensures Blocks(p) <==> CanBlock(p)
  {
    if Blocks(p) {
      var states, actions :| FixedRun(states, actions, p) && Stuck(states[|actions|], p);
      RunUnlatched(states, actions, p, |actions|);
    }
    if CanBlock(p) {
      BlockingRun(p);
    }
  }

  // ---------------------------------------------------------------- chunk calls alone

  function Gcd(a: nat, b: nat): (g: nat)
    requires a > 0 && b > 0
    ensures 0 < g <= a && g <= b
    decreases a + b
  {
    if a == b then a else if a < b then Gcd(a, b - a) else Gcd(a - b, b)
  }

  lemma {:induction false} GcdDivides(a: nat, b: nat)
    requires a > 0 && b > 0
    ensures a % Gcd(a, b) == 0 && b % Gcd(a, b) == 0
    decreases a + b
  {
    var g := Gcd(a, b);
    if a < b {
      GcdDivides(a, b - a);
      SumDivides(a, b - a, g);
    } else if a > b {
      GcdDivides(a - b, b);
      SumDivides(a - b, b, g);
    } else {
      assert a % a == 0;
    }
  }

  lemma {:induction false} Bezout(a: nat, b: nat) returns (u: nat, v: nat)
    requires a > 0 && b > 0
    ensures Times(u, a) + Gcd(a, b) == Times(v, b) && v > 0
    decreases a + b
  {
    if a == b {
      u, v := 0, 1;
    } else if a < b {
      u, v := Bezout(a, b - a);
      assert Times(v, b - a) == Times(v, b) - Times(v, a);
      assert Times(u + v, a) == Times(u, a) + Times(v, a);
      u := u + v;
    } else {
      u, v := Bezout(a - b, b);
      assert Times(u, a - b) == Times(u, a) - Times(u, b);
      assert Times(u + v, b) == Times(u, b) + Times(v, b);
      v := u + v;
    }
  }

  predicate ChunkCall(a: Action, p: Setup) {
    !a.CallRead? && !a.CallWrite?
    && (a.CallReadChunk? ==> a.length == p.readChunk) && (a.CallWriteChunk? ==> |a.data| == p.writeChunk)
  }

  /** A run whose reader reads chunks of one size and whose writer writes chunks of another. */
  ghost predicate ChunkRun(states: seq<State>, actions: seq<Action>, p: Setup) {
    FixedRun(states, actions, p) && forall i :: 0 <= i < |actions| ==> ChunkCall(actions[i], p)
  }

  ghost predicate Reaches(p: Setup, s: State) {
    exists states, actions :: ChunkRun(states, actions, p) && states[|actions|] == s
  }

  ghost predicate ChunksBlock(p: Setup) {
    exists s :: Reaches(p, s) && Stuck(s, p)
  }

  /** The chunk calls of this run. */
  predicate InChunks(s: State, p: Setup) {
    (!s.reader.Out? ==> s.reader.chunk && s.reader.length == p.readChunk)
    && (!s.writer.Out? ==> s.writer.chunk && |s.writer.data| == p.writeChunk)
  }

  /** Fill levels are multiples of both chunks' divisor, and of the write chunk before the latch is set. */
  predicate Whole(s: State, p: Setup)
    requires p.readChunk > 0 && p.writeChunk > 0
  {
    s.ring.doneWrite
    || (|s.ring.stored| % Gcd(p.writeChunk, p.readChunk) == 0
        && (!s.ring.latch ==> |s.ring.stored| % p.writeChunk == 0))
  }

  lemma WholeRead(s: State, p: Setup)
    requires p.readChunk > 0 && p.writeChunk > 0 && InChunks(s, p) && Whole(s, p) && Fits(s) && s.reader.Asking?
    ensures Whole(ReadSection(s), p) && InChunks(ReadSection(s), p)
  {
    var g := Gcd(p.writeChunk, p.readChunk);
    GcdDivides(p.writeChunk, p.readChunk);
    var now := ReadSection(s).ring.stored;
    if |now| < |s.ring.stored| && !s.ring.doneWrite {
      SumDivides(p.readChunk, |now|, g);
    }
  }

  lemma WholeWrite(s: State, p: Setup)
    requires p.readChunk > 0 && p.writeChunk > 0 && InChunks(s, p) && Whole(s, p) && Fits(s) && s.writer.Offering?
    ensures Whole(WriteSection(s), p) && InChunks(WriteSection(s), p)
  {
    GcdDivides(p.writeChunk, p.readChunk);
    var n := |s.ring.stored|;
    if |WriteSection(s).ring.stored| > n && !s.ring.doneWrite {
      SumDivides(p.writeChunk, n, Gcd(p.writeChunk, p.readChunk));
      SumDivides(p.writeChunk, n, p.writeChunk);
    }
  }

  lemma WholeStep(s: State, a: Action, s': State, p: Setup)
    requires p.readChunk > 0 && p.writeChunk > 0 && InChunks(s, p) && Whole(s, p)
    requires Step(s, a, s') && ChunkCall(a, p)
    ensures InChunks(s', p) && Whole(s', p)
  {
    hide ReadSection, WriteSection;
    if a.RunRead? { WholeRead(s, p); }
    if a.RunWrite? { WholeWrite(s, p); }
  }

  lemma {:induction false} WholeRun(states: seq<State>, actions: seq<Action>, p: Setup, i: nat)
    requires p.readChunk > 0 && p.writeChunk > 0 && ChunkRun(states, actions, p) && i < |states|
    ensures InChunks(states[i], p) && Whole(states[i], p)
  {
    if i > 0 {
      hide Step, Whole, InChunks;
      WholeRun(states, actions, p, i - 1);
      WholeStep(states[i - 1], actions[i - 1], states[i], p);
    }
  }

  /**
   * Either as many write chunks as fit stay below the threshold, or the chunks need more than their greatest common
   * divisor over the size.
   */
  predicate ChunksCanBlock(p: Setup)
    requires p.readChunk > 0 && p.writeChunk > 0
  {
    p.readChunk <= p.size && p.writeChunk <= p.size
    && (Times(p.size / p.writeChunk, p.writeChunk) < Bound(p)
        || p.readChunk + p.writeChunk > p.size + Gcd(p.writeChunk, p.readChunk))
  }

  lemma StuckNeeds(s: State, p: Setup)
    requires p.readChunk > 0 && p.writeChunk > 0 && s.ring.size == p.size && Stuck(s, p)
    requires Unlatched(s.ring, Bound(p)) && Whole(s, p)
    ensures ChunksCanBlock(p)
  {
    var n := |s.ring.stored|;
    GcdDivides(p.writeChunk, p.readChunk);
    if s.ring.latch {
      GapOfMultiples(n, p.readChunk, Gcd(p.writeChunk, p.readChunk));
    } else {
      Quotient(n, p.size, p.writeChunk);
    }
  }

  lemma Quotient(n: nat, size: nat, d: nat)
    requires d > 0 && n % d == 0 && n <= size < n + d
    ensures n == Times(size / d, d)
  {
    SumDivides(n, size - n, d);
    Small(size - n, d);
    assert size == size / d * d + size % d;
  }

  // ---------------------------------------------------------------- a run that blocks

  /** Between calls at a fill level. */
  ghost predicate CanFill(p: Setup, n: nat, latch: bool) {
    exists s :: Reaches(p, s) && Between(s, p, n, latch)
  }

  predicate Between(s: State, p: Setup, n: nat, latch: bool) {
    s.reader.Out? && s.writer.Out? && Flagless(s.ring) && s.ring.latch == latch
    && |s.ring.stored| == n && s.ring.size == p.size && s.ring.threshold == Bound(p)
  }

  lemma Extend(p: Setup, s: State, a: Action, s': State)
    requires Reaches(p, s) && Step(s, a, s') && ChunkCall(a, p) && !a.SetThreshold?
    ensures Reaches(p, s')
  {
    var states, actions :| ChunkRun(states, actions, p) && states[|actions|] == s;
    hide Step;
    assert ChunkRun(states + [s'], actions + [a], p) by { ExtendRun(states, actions, a, s'); }
    assert (states + [s'])[|actions + [a]|] == s';
  }

  lemma ExtendRun(states: seq<State>, actions: seq<Action>, a: Action, s': State)
    requires Run(states, actions) && Step(states[|actions|], a, s')
    ensures Run(states + [s'], actions + [a])
  {
    hide Step;
    var ss, aa := states + [s'], actions + [a];
    forall i | 0 <= i < |aa| ensures Step(ss[i], aa[i], ss[i + 1]) {
      if i < |actions| { assert ss[i + 1] == states[i + 1]; }
    }
  }

  lemma FirstState(p: Setup)
    ensures CanFill(p, 0, false)
  {
    var start := StartState(p);
    var s := start.(ring := start.ring.(threshold := Bound(p)));
    assert ChunkRun([start, s], [SetThreshold(p.threshold)], p);
    assert Reaches(p, s) && Between(s, p, 0, false);
  }

  lemma WriteTurn(p: Setup, n: nat, latch: bool)
    requires CanFill(p, n, latch) && n + p.writeChunk <= p.size && p.writeChunk > 0
    ensures CanFill(p, n + p.writeChunk, latch || n + p.writeChunk >= Bound(p))
  {
    hide Reaches;
    var s :| Reaches(p, s) && Between(s, p, n, latch);
    var data: seq<byte> := seq(p.writeChunk, i => 0);
    var asked := s.(writer := Offering(data, 0, true));
    Extend(p, s, CallWriteChunk(data), asked);
    var done := WriteSection(asked);
    Extend(p, asked, RunWrite, done);
    assert Between(done, p, n + p.writeChunk, latch || n + p.writeChunk >= Bound(p));
  }

  lemma ReadTurn(p: Setup, n: nat)
    requires CanFill(p, n, true) && p.readChunk <= n <= p.size && p.readChunk > 0
    ensures CanFill(p, n - p.readChunk, true)
  {
    hide Reaches;
    var s :| Reaches(p, s) && Between(s, p, n, true);
    var asked := s.(reader := Asking(p.readChunk, 0, true));
    Extend(p, s, CallReadChunk(p.readChunk), asked);
    var done := ReadSection(asked);
    Extend(p, asked, RunRead, done);
    assert Between(done, p, n - p.readChunk, true);
  }

  lemma StuckTurn(p: Setup, n: nat, latch: bool)
    requires CanFill(p, n, latch) && (n < p.readChunk || !latch) && n + p.writeChunk > p.size >= n
    requires p.readChunk <= p.size && p.writeChunk <= p.size
    ensures ChunksBlock(p)
  {
    hide Reaches;
    var s :| Reaches(p, s) && Between(s, p, n, latch);
    var data: seq<byte> := seq(p.writeChunk, i => 0);
    var asked := s.(reader := Asking(p.readChunk, 0, true));
    Extend(p, s, CallReadChunk(p.readChunk), asked);
    var both := asked.(writer := Offering(data, 0, true));
    Extend(p, asked, CallWriteChunk(data), both);
    assert Stuck(both, p);
  }

  /** Write chunk after chunk. */
  lemma {:induction false} WriteAll(p: Setup, k: nat)
    requires p.writeChunk > 0 && Times(k, p.writeChunk) <= p.size
    ensures CanFill(p, Times(k, p.writeChunk), k > 0 && Times(k, p.writeChunk) >= Bound(p))
  {
    if k == 0 {
      FirstState(p);
    } else {
      assert Times(k, p.writeChunk) == Times(k - 1, p.writeChunk) + p.writeChunk;
      hide Times;
      WriteAll(p, k - 1);
      WriteTurn(p, Times(k - 1, p.writeChunk), k - 1 > 0 && Times(k - 1, p.writeChunk) >= Bound(p));
    }
  }

  /** Bytes left after some chunks written and some read. */
  function Level(p: Setup, written: nat, read: nat): int {
    Times(written, p.writeChunk) - Times(read, p.readChunk)
  }

  lemma LevelNext(p: Setup, i: nat, j: nat)
    ensures Level(p, i + 1, j) == Level(p, i, j) + p.writeChunk
    ensures Level(p, i, j + 1) == Level(p, i, j) - p.readChunk
  {
  }

  lemma LevelOrder(p: Setup, i: nat, j: nat, a: nat, b: nat)
    ensures j < b ==> Level(p, a, j) >= Level(p, a, b) + p.readChunk
    ensures i < a ==> Level(p, i, b) + p.writeChunk <= Level(p, a, b)
  {
    hide Times;
    if j < b { TimesOrder(j, b, p.readChunk); }
    if i < a { TimesOrder(i, a, p.writeChunk); }
  }

  /** Writing while there is room and reading otherwise, never beyond the counts aimed at, the two meet. */
  lemma {:induction false} Meet(p: Setup, i: nat, j: nat, a: nat, b: nat, low: nat)
    requires 0 < p.readChunk <= p.size && 0 < p.writeChunk <= p.size && i <= a && j <= b
    requires low < p.readChunk && Level(p, a, b) == low && low + p.writeChunk > p.size
    requires 0 <= Level(p, i, j) <= p.size && CanFill(p, Level(p, i, j), true)
    ensures ChunksBlock(p)
    decreases a - i + b - j
  {
    var n := Level(p, i, j);
    LevelNext(p, i, j);
    LevelOrder(p, i, j, a, b);
    hide CanFill, ChunksBlock, Level;
    if n < p.readChunk && n + p.writeChunk > p.size {
      StuckTurn(p, n, true);
    } else if i < a && n + p.writeChunk <= p.size {
      WriteTurn(p, n, true);
      Meet(p, i + 1, j, a, b, low);
    } else {
      assert j < b && n >= p.readChunk;
      ReadTurn(p, n);
      Meet(p, i, j + 1, a, b, low);
    }
  }

  /** Both counts can be raised by the other chunk without changing the level. */
  lemma LevelShift(p: Setup, a: nat, b: nat)
    ensures Level(p, a + p.readChunk, b + p.writeChunk) == Level(p, a, b)
  {
    var r, w := p.readChunk, p.writeChunk;
    assert Times(a + r, w) == Times(a, w) + r * w;
    assert Times(b + w, r) == Times(b, r) + w * r;
  }

  /** Counts to aim at, with as many writes as wanted. */
  lemma {:induction false} Aim(p: Setup, k: nat) returns (a: nat, b: nat)
    requires p.readChunk > 0 && p.writeChunk > 0
    ensures Level(p, a, b) == p.readChunk - Gcd(p.writeChunk, p.readChunk) && a >= k
  {
    hide Gcd;
    if k == 0 {
      a, b := Bezout(p.writeChunk, p.readChunk);
      TimesNext(p.readChunk, b);
      assert Times(b, p.readChunk) == Times(p.readChunk, b) && Times(b - 1, p.readChunk) == Times(p.readChunk, b - 1);
      b := b - 1;
    } else {
      a, b := Aim(p, k - 1);
      LevelShift(p, a, b);
      a, b := a + p.readChunk, b + p.writeChunk;
    }
  }

  lemma MostThatFit(p: Setup)
    requires 0 < p.writeChunk <= p.size
    ensures p.size / p.writeChunk > 0
    ensures Times(p.size / p.writeChunk, p.writeChunk) <= p.size < Times(p.size / p.writeChunk, p.writeChunk) + p.writeChunk
    ensures Times(0, p.readChunk) == 0
  {
  }

  lemma ChunksBlockingRun(p: Setup)
    requires p.readChunk > 0 && p.writeChunk > 0 && ChunksCanBlock(p)
    ensures ChunksBlock(p)
  {
    var k := p.size / p.writeChunk;
    var n := Times(k, p.writeChunk);
    MostThatFit(p);
    hide Times, CanFill, ChunksBlock, Gcd;
    WriteAll(p, k);
    if n < Bound(p) {
      StuckTurn(p, n, false);
    } else {
      var a, b := Aim(p, k);
      Meet(p, k, 0, a, b, p.readChunk - Gcd(p.writeChunk, p.readChunk));
    }
  }

  /**
   * Some run of chunk calls alone blocks reader and writer exactly when the threshold is out of the writer's reach
   * or the two chunks need more than their greatest common divisor over the size.
   */
  lemma ChunksBlockExact(p: Setup)
    requires p.readChunk > 0 && p.writeChunk > 0
    ensures ChunksBlock(p) <==> ChunksCanBlock(p)
  {
    if ChunksBlock(p) {
      var s :| Reaches(p, s) && Stuck(s, p);
      var states, actions :| ChunkRun(states, actions, p) && states[|actions|] == s;
      RunUnlatched(states, actions, p, |actions|);
      WholeRun(states, actions, p, |actions|);
      StuckNeeds(s, p);
    }
    if ChunksCanBlock(p) {
      ChunksBlockingRun(p);
    }
  }
}
