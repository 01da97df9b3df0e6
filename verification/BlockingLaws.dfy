/** What one critical section of the blocking ring moves, how it ends, and what it does to the latch. */
module BlockingLaws {
  import opened Text
  import opened Arithmetic
  import opened BlockingRing

  /** How many bytes a stream read finds: none below the threshold. */
  function Available(r: Ring, length: nat): (n: nat)
    ensures n <= length && n <= |r.stored|
  {
    if !r.latch then 0 else if |r.stored| < length then |r.stored| else length
  }

  function Room(r: Ring): nat {
    if |r.stored| < r.size then r.size - |r.stored| else 0
  }

  /** How a reader that did not get everything ends: done, aborted, timed out by force, or waiting, in this order. */
  function ReaderEnds(r: Ring): Verdict {
    if r.doneWrite then Returns(-2) else if r.abortRead then Returns(-3) else if r.unblockReader then Returns(-4) else Waits
  }

  function WriterEnds(r: Ring): Verdict {
    if r.doneWrite then Returns(-2) else if r.abortWrite then Returns(-3) else Waits
  }

  /** `rb_read` takes the oldest bytes there are, up to its length, and nothing else changes. */
  lemma {:induction false} ReadTakes(r: Ring, length: nat)
    ensures var n, result := Available(r, length), Reading(r, length);
      && result.taken == r.stored[..n] && result.ring == r.(stored := r.stored[n..])
      && result.verdict == if n == length then Returns(0) else ReaderEnds(r)
    decreases length
  {
    if length > 0 && !NothingToRead(r) {
      var n := Min(|r.stored|, length);
      var next := r.(stored := r.stored[n..]);
      ReadTakes(next, length - n);
      assert Available(next, length - n) == 0;
      assert next.stored[..0] == [] && next.stored[0..] == next.stored;
      assert r.stored[..n] + [] == r.stored[..n];
    } else {
      assert r.stored[..0] == [] && r.stored[0..] == r.stored;
    }
  }

  /**
   * `rb_write` stores as much as there is room for. The latch is set once as many bytes as the threshold are stored,
   * and by a writer that ends without having stored everything.
   */
  lemma {:induction false} WriteStores(r: Ring, data: seq<byte>)
    ensures var n, result := Min(Room(r), |data|), Writing(r, data);
      && result.written == n && result.ring == r.(stored := r.stored + data[..n], latch := result.ring.latch)
      && result.verdict == (if n == |data| then Returns(0) else WriterEnds(r))
      && (result.ring.latch <==>
            r.latch || (n > 0 && |r.stored| + n >= r.threshold) || (n < |data| && (r.doneWrite || r.abortWrite)))
    decreases |data|
  {
    if data == [] || NoRoom(r) {
      WritingEnds(r, data);
      assert r.stored + data[..0] == r.stored;
    } else {
      WritingStep(r, data);
      var n := Min(r.size - |r.stored|, |data|);
      var next := WithPiece(r, data[..n]);
      WriteStores(next, data[n..]);
      assert next.stored + data[n..][..0] == next.stored;
    }
  }

  /** `rb_read_chunk` takes a whole chunk, or once writing is done what is left, or nothing. */
  lemma ChunkTaken(r: Ring, size: nat)
    requires |r.stored| <= r.size
    ensures var result := ChunkReading(r, size);
      var n := if !r.latch then 0 else if size <= |r.stored| then size else if r.doneWrite then |r.stored| else 0;
      && result.taken == r.stored[..n] && result.ring == r.(stored := r.stored[n..])
      && result.verdict == if n > 0 then Returns(0)
                           else if ReaderEnds(r).Waits? && size > r.size then Returns(-1) else ReaderEnds(r)
  {
    assert r.stored[..0] == [] && r.stored[0..] == r.stored;
  }

  /** `rb_write_chunk` stores a whole chunk, or once writing is done what fits, or nothing. */
  lemma ChunkStored(r: Ring, data: seq<byte>)
    requires |r.stored| <= r.size
    ensures var result := ChunkWriting(r, data);
      var n := if |data| <= Room(r) then |data| else if r.doneWrite then Room(r) else 0;
      && result.written == n && result.ring == r.(stored := r.stored + data[..n], latch := result.ring.latch)
      && result.verdict == (if n > 0 then Returns(0)
                            else if WriterEnds(r).Waits? && |data| > r.size then Returns(-1) else WriterEnds(r))
      && (result.ring.latch <==>
            r.latch || (n > 0 && |r.stored| + n >= r.threshold)
            || (n == 0 && (r.doneWrite || r.abortWrite || |data| > r.size)))
  {
    assert r.stored + data[..0] == r.stored;
  }
}
