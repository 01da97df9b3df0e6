/** The loops of the blocking ring buffer between taking the lock and releasing it. */
module BlockingRingCode {
  import opened Text
  import opened Arithmetic
  import opened LockFreeRing
  import B = BlockingRing

  /** `struct ringbuf`; its storage and pointers are handled as in the lock-free ring. */
  class BlockingBuffer {
    const store: RingBuffer
    var threshold: int
    var latch: bool
    var doneWrite: bool
    var abortRead: bool
    var abortWrite: bool
    var unblockReader: bool

    ghost function View(): B.Ring
      requires store.Valid()
      reads this, store, store.buffer
    {
      B.Ring(store.buffer.Length, store.Contents(), threshold, latch, doneWrite, abortRead, abortWrite, unblockReader)
    }

    /** `rb_create`. */
    constructor (size: nat)
      requires size > 0
      ensures store.Valid() && fresh(store) && fresh(store.buffer)
      ensures View() == B.Ring(size, [], 0, false, false, false, false, false)
    {
      var ring := new RingBuffer(size);
      store := ring;
      threshold, latch, doneWrite, abortRead, abortWrite, unblockReader := 0, false, false, false, false, false;
    }

    /** `rb_set_threshold`: never more than the ring can hold, and otherwise what was asked for. */
    method SetThreshold(t: int)
      modifies this`threshold
      ensures threshold <= store.buffer.Length && threshold <= t
      ensures threshold == t || threshold == store.buffer.Length
    {
      threshold := if t <= store.buffer.Length then t else store.buffer.Length;
    }

    /** The loop of `rb_read`. */
    method ReadLoop(length: nat) returns (taken: seq<byte>, verdict: B.Verdict)
      requires store.Valid()
      modifies store
      ensures store.Valid() && B.ReadResult(View(), taken, verdict) == B.Reading(old(View()), length)
    {
      hide Unrolled;
      taken := [];
      var left := length;
      while left > 0
        invariant 0 <= left <= length && store.Valid()
        invariant B.Reading(old(View()), length) == ReadMore(taken, B.Reading(View(), left))
      {
        var readSize := if store.filled < left then store.filled else left;
        if readSize == 0 || !latch {
          if doneWrite {
            verdict := B.Returns(B.RB_DONE);
            return;
          }
          if abortRead {
            verdict := B.Returns(B.RB_ABORT);
            return;
          }
          if unblockReader {
            verdict := B.Returns(B.RB_TIMEOUT);
            return;
          }
          verdict := B.Waits;
          return;
        }
        ghost var was := View();
        var r, data := store.Read(readSize);
        ReadRound(was, View(), taken, data, left);
        taken := taken + data;
        left := left - readSize;
      }
      verdict := B.Returns(0);
    }

    /** What one round of the loop stores. */
    method StorePiece(piece: seq<byte>)
      requires store.Valid() && 0 < |piece| <= store.buffer.Length - store.filled
      modifies this`latch, store, store.buffer
      ensures store.Valid() && View() == B.WithPiece(old(View()), piece)
    {
      var r := store.Write(piece);
      if !latch && store.filled >= threshold {
        latch := true;
      }
    }

    /** The round as a step of the specified loop. */
    method StoreRound(data: seq<byte>, written: nat, n: nat)
      requires store.Valid() && written < |data| && store.filled < store.buffer.Length
      requires n == Min(store.buffer.Length - store.filled, |data| - written)
      modifies this`latch, store, store.buffer
      ensures store.Valid()
      ensures WriteMore(written, B.Writing(old(View()), data[written..]))
              == WriteMore(written + n, B.Writing(View(), data[written + n..]))
    {
      hide B.Writing, Unrolled, B.WithPiece, WriteMore;
      ghost var was := View();
      StorePiece(data[written..written + n]);
      WriteRound(was, View(), data, written, n);
    }

    /** The loop of `rb_write`. */
    method WriteLoop(data: seq<byte>) returns (written: nat, verdict: B.Verdict)
      requires store.Valid()
      modifies this`latch, store, store.buffer
      ensures store.Valid() && B.WriteResult(View(), written, verdict) == B.Writing(old(View()), data)
    {
      hide Unrolled, B.Writing;
      written := 0;
      while written < |data|
        invariant 0 <= written <= |data| && store.Valid()
        invariant B.Writing(old(View()), data) == WriteMore(written, B.Writing(View(), data[written..]))
        decreases |data| - written
      {
        var writeSize := store.BytesAvailable();
        if |data| - written < writeSize {
          writeSize := |data| - written;
        }
        if writeSize == 0 {
          B.WritingEnds(View(), data[written..]);
          if doneWrite {
            verdict := B.Returns(B.RB_DONE);
            latch := true;
            return;
          }
          if abortWrite {
            verdict := B.Returns(B.RB_ABORT);
            latch := true;
            return;
          }
          verdict := B.Waits;
          return;
        }
        StoreRound(data, written, writeSize);
        written := written + writeSize;
      }
      B.WritingEnds(View(), data[written..]);
      verdict := B.Returns(0);
    }

    /** `rb_read_chunk` between the label `wait_filled` and the wait or the release. */
    method ReadChunk(size: nat) returns (taken: seq<byte>, verdict: B.Verdict)
      requires store.Valid()
      modifies store
      ensures store.Valid() && B.ReadResult(View(), taken, verdict) == B.ChunkReading(old(View()), size)
    {
      taken := [];
      var readSize := size;
      if store.filled < size {
        readSize := if doneWrite then store.filled else 0;
      }
      if readSize == 0 || !latch {
        verdict := if doneWrite then B.Returns(B.RB_DONE) else if abortRead then B.Returns(B.RB_ABORT)
                   else if unblockReader then B.Returns(B.RB_TIMEOUT)
                   else if size > store.buffer.Length then B.Returns(B.RB_FAIL) else B.Waits;
        return;
      }
      var r;
      r, taken := store.Read(readSize);
      verdict := B.Returns(0);
    }

    /** `rb_write_chunk` between the label `wait_available` and the wait or the release. */
    method WriteChunk(data: seq<byte>) returns (written: nat, verdict: B.Verdict)
      requires store.Valid()
      modifies this`latch, store, store.buffer
      ensures store.Valid() && B.WriteResult(View(), written, verdict) == B.ChunkWriting(old(View()), data)
    {
      written := |data|;
      var available := store.BytesAvailable();
      if available < |data| {
        written := if doneWrite then available else 0;
      }
      if written == 0 {
        if doneWrite {
          verdict := B.Returns(B.RB_DONE);
          latch := true;
        } else if abortWrite {
          verdict := B.Returns(B.RB_ABORT);
          latch := true;
        } else if |data| > store.buffer.Length {
          verdict := B.Returns(B.RB_FAIL);
          latch := true;
        } else {
          verdict := B.Waits;
        }
        return;
      }
      StorePiece(data[..written]);
      verdict := B.Returns(0);
    }
  }

  ghost function ReadMore(taken: seq<byte>, rest: B.ReadResult): B.ReadResult {
    rest.(taken := taken + rest.taken)
  }

  lemma ReadRound(was: B.Ring, now: B.Ring, taken: seq<byte>, data: seq<byte>, left: nat)
    requires !B.NothingToRead(was) && was.stored == data + now.stored && now == was.(stored := now.stored)
    requires left > 0 && |data| == Min(|was.stored|, left)
    ensures ReadMore(taken, B.Reading(was, left)) == ReadMore(taken + data, B.Reading(now, left - |data|))
  {
    assert was.stored[..|data|] == data && was.stored[|data|..] == now.stored;
  }

  lemma WriteRound(was: B.Ring, now: B.Ring, data: seq<byte>, written: nat, n: nat)
    requires written + n <= |data| && n > 0 && |was.stored| < was.size
    requires n == Min(was.size - |was.stored|, |data| - written) && now == B.WithPiece(was, data[written..written + n])
    ensures WriteMore(written, B.Writing(was, data[written..])) == WriteMore(written + n, B.Writing(now, data[written + n..]))
  {
    var rest := data[written..];
    assert data[written..written + n] == rest[..n] && data[written + n..] == rest[n..];
    B.WritingStep(was, rest);
    hide B.Writing;
  }

  ghost function WriteMore(written: nat, rest: B.WriteResult): B.WriteResult {
    rest.(written := written + rest.written)
  }
}
