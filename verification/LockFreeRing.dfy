/** The lock-free ring buffer used by one thread: a bounded first-in first-out queue of bytes. */
module LockFreeRing {
  import opened Text
  import opened Arithmetic
  import opened RingSteps

  const INVALID_PARAMETER := -1
  const INSUFFICIENT_WRITEABLE_BUFFER := -2

  /** The n bytes behind the pointer p. */
  ghost function Unrolled(b: seq<byte>, p: nat, n: nat): (t: seq<byte>)
    requires p <= |b| && n <= |b|
    ensures |t| == n
    ensures forall k :: 0 <= k < n ==> t[k] == b[Slot(|b|, p, k)]
  {
    seq(n, k requires 0 <= k < n => b[Slot(|b|, p, k)])
  }

  class RingBuffer {
    const buffer: array<byte>
    var pr: nat
    var pw: nat
    var filled: nat

    ghost predicate Valid()
      reads this, buffer
    {
      0 < buffer.Length && pr <= buffer.Length && filled <= buffer.Length && pw == Next(buffer.Length, pr, filled)
    }

    ghost function Contents(): (t: seq<byte>)
      requires Valid()
      reads this, buffer
      ensures |t| == filled
    {
      Unrolled(buffer[..], pr, filled)
    }

    /** `lockfree_ringbuf_create`, for a positive size. */
    constructor (size: nat)
      requires size > 0
      ensures Valid() && fresh(buffer) && buffer.Length == size && Contents() == []
    {
      buffer, pr, pw, filled := new byte[size], 0, 0, 0;
    }

    /** `lockfree_ringbuf_unsafe_reset`. */
    method Reset()
      requires Valid()
      modifies this
      ensures Valid() && Contents() == []
    {
      pr, pw, filled := 0, 0, 0;
    }

    method BytesAvailable() returns (n: nat)
      requires Valid()
      ensures n + |Contents()| == buffer.Length
    {
      n := buffer.Length - filled;
    }

    /** `memcpy` from the caller's bytes. */
    method CopyIn(at: nat, src: seq<byte>)
      requires at + |src| <= buffer.Length
      modifies buffer
      ensures forall i :: 0 <= i < buffer.Length ==>
        buffer[i] == if at <= i < at + |src| then src[i - at] else old(buffer[i])
    {
      for i := 0 to |src|
        invariant forall j :: 0 <= j < buffer.Length ==>
          buffer[j] == if at <= j < at + i then src[j - at] else old(buffer[j])
      {
        buffer[at + i] := src[i];
      }
    }

    /** Both `memcpy` calls of a write and the new write pointer; the filled size is the caller's affair. */
    method Append(data: seq<byte>)
      requires Valid() && 0 < |data| <= buffer.Length - filled
      modifies this`pw, buffer
      ensures pw == Next(buffer.Length, pr, filled + |data|)
      ensures Unrolled(buffer[..], pr, filled + |data|) == old(Contents()) + data
    {
      if pw + |data| > buffer.Length {
        var length1 := buffer.Length - pw;
        CopyIn(pw, data[..length1]);
        CopyIn(0, data[length1..]);
        pw := |data| - length1;
      } else {
        CopyIn(pw, data);
        pw := pw + |data|;
      }
    }

    /** `lockfree_ringbuf_write`: all of the data or, when it does not fit, none. */
    method Write(data: seq<byte>) returns (r: int)
      requires Valid()
      modifies this, buffer
      ensures Valid()
      ensures r == if data == [] then -1
                   else if old(|Contents()|) + |data| > buffer.Length then -2
                   else |data|
      ensures Contents() == if r >= 0 then old(Contents()) + data else old(Contents())
    {
      if |data| <= 0 {
        return INVALID_PARAMETER;
      }
      if |data| > buffer.Length - filled {
        return INSUFFICIENT_WRITEABLE_BUFFER;
      }
      Append(data);
      filled := filled + |data|;
      r := |data|;
    }

    /** The pointer moved on by what a read or a discard takes. */
    method Drop(n: nat)
      requires Valid() && 0 < n <= filled
      modifies this`pr, this`filled
      ensures Valid() && Contents() == old(Contents())[n..]
    {
      NextNext(buffer.Length, pr, n, filled - n);
      if pr + n > buffer.Length {
        var length1 := buffer.Length - pr;
        pr := n - length1;
      } else {
        pr := pr + n;
      }
      filled := filled - n;
    }

    /** Both `memcpy` calls of a read. */
    method CopyOut(n: nat) returns (data: seq<byte>)
      requires Valid() && n <= filled
      ensures data == Contents()[..n]
    {
      if pr + n > buffer.Length {
        var length1 := buffer.Length - pr;
        data := buffer[pr..] + buffer[..n - length1];
      } else {
        data := buffer[pr..pr + n];
      }
    }

    /** `lockfree_ringbuf_read`: as much as there is, up to the wanted length. */
    method Read(length: int) returns (r: int, data: seq<byte>)
      requires Valid()
      modifies this
      ensures Valid()
      ensures r == if length <= 0 then -1 else Min(length, |old(Contents())|)
      ensures |data| == if length <= 0 then 0 else r
      ensures old(Contents()) == data + Contents()
    {
      data := [];
      if length <= 0 {
        r := INVALID_PARAMETER;
        return;
      }
      var n := if length > filled then filled else length;
      if n > 0 {
        data := CopyOut(n);
        Drop(n);
      }
      r := n;
    }

    /** `lockfree_ringbuf_unsafe_discard`. */
    method Discard(length: int) returns (r: int)
      requires Valid()
      modifies this
      ensures Valid()
      ensures r == if length <= 0 then -1 else Min(length, |old(Contents())|)
      ensures Contents() == if length <= 0 then old(Contents()) else old(Contents())[r..]
    {
      if length <= 0 {
        return INVALID_PARAMETER;
      }
      var n := if length > filled then filled else length;
      if n > 0 {
        Drop(n);
      }
      r := n;
    }

    /** The branch of an overwrite with more data than the buffer holds. */
    method Refill(tail: seq<byte>)
      requires Valid() && |tail| == buffer.Length
      modifies this, buffer
      ensures Valid() && Contents() == tail
    {
      CopyIn(0, tail);
      pw, pr, filled := buffer.Length, 0, buffer.Length;
      assert buffer[..] == tail;
    }

    /** The other branch: what does not fit is discarded at the front. */
    method Squeeze(data: seq<byte>)
      requires Valid() && 0 < |data| <= buffer.Length
      modifies this, buffer
      ensures Valid() && Contents() == Last(old(Contents()) + data, buffer.Length)
    {
      hide Unrolled, Last, Next;
      ghost var was := Contents();
      var available := buffer.Length - filled;
      if |data| > available {
        var dropped := Discard(|data| - available);
        assert dropped == |data| - available;
        LastPart(was, data, |data| - available, buffer.Length);
      } else {
        LastWhole(was + data, buffer.Length);
      }
      Append(data);
      filled := filled + |data|;
    }

    /** `lockfree_ringbuf_unsafe_overwrite`: the last bytes of the old contents and the data, as many as fit. */
    method Overwrite(data: seq<byte>) returns (r: int)
      requires Valid()
      modifies this, buffer
      ensures Valid()
      ensures r == if data == [] then -1 else |data|
      ensures Contents() == Last(old(Contents()) + data, buffer.Length)
    {
      hide Unrolled;
      if |data| <= 0 {
        assert Contents() + data == Contents();
        return INVALID_PARAMETER;
      }
      if |data| <= buffer.Length {
        Squeeze(data);
      } else {
        LastPart(Contents(), data, filled, buffer.Length);
        Refill(data[|data| - buffer.Length..]);
      }
      r := |data|;
    }
  }

  /** The last elements, as many as wanted and present. */
  function Last<T>(s: seq<T>, n: nat): seq<T> {
    if |s| <= n then s else s[|s| - n..]
  }

  lemma LastWhole<T>(s: seq<T>, n: nat)
    requires |s| <= n
    ensures Last(s, n) == s
  {
  }

  lemma LastPart<T>(a: seq<T>, b: seq<T>, k: nat, n: nat)
    requires k <= |a| && |a| + |b| - k >= n
    ensures |a| + |b| - k == n ==> Last(a + b, n) == a[k..] + b
    ensures |b| >= n ==> Last(a + b, n) == b[|b| - n..]
  {
  }
}
