/** The streaming context of SHA-256. */
module Sha256Code {
  import opened HashBytes
  import opened Sha256

  lemma WordAt(b: Block, t: nat)
    requires 16 <= t < 64
    ensures W(b, t) == Scheduled(W(b, t - 2), W(b, t - 7), W(b, t - 15), W(b, t - 16))
  {
  }

  /** The first loops of `sha256_transf`: the schedule of one block. */
  method Schedule(b: Block) returns (w: array<bv32>)
    ensures fresh(w) && w.Length == 64 && forall t :: 0 <= t < 64 ==> w[t] == W(b, t)
  {
    hide Pack, Scheduled;
    w := new bv32[64];
    for j := 0 to 16
      invariant forall t :: 0 <= t < j ==> w[t] == W(b, t)
    {
      w[j] := Pack(b, j);
    }
    hide W;
    for j := 16 to 64
      invariant forall t :: 0 <= t < j ==> w[t] == W(b, t)
    {
      WordAt(b, j);
      w[j] := Scheduled(w[j - 2], w[j - 7], w[j - 15], w[j - 16]);
    }
  }

  lemma RoundAt(h: Words, b: Block, t: nat)
    requires t < 64
    ensures Rounds(h, b, t + 1) == Round(Rounds(h, b, t), Constant(t), W(b, t))
    ensures Rounds(h, b, 0) == h
  {
  }

  /** One round on the array of working variables. */
  method RunRound(wv: array<bv32>, k: bv32, w: bv32)
    requires wv.Length == 8
    modifies wv
    ensures wv[..] == Round(old(wv[..]), k, w)
  {
    hide T1, T2, Plus, Round;
    ghost var v: Words := wv[..];
    var t1 := T1(wv[4], wv[5], wv[6], wv[7], k, w);
    var t2 := T2(wv[0], wv[1], wv[2]);
    wv[7] := wv[6];
    wv[6] := wv[5];
    wv[5] := wv[4];
    wv[4] := Plus(wv[3], t1);
    wv[3] := wv[2];
    wv[2] := wv[1];
    wv[1] := wv[0];
    wv[0] := Plus(t1, t2);
    RoundIs(v, k, w, wv[..], t1, t2);
  }

  lemma RoundIs(v: Words, k: bv32, w: bv32, s: Words, t1: bv32, t2: bv32)
    requires t1 == T1(v[4], v[5], v[6], v[7], k, w) && t2 == T2(v[0], v[1], v[2])
    requires s[0] == Plus(t1, t2) && s[1] == v[0] && s[2] == v[1] && s[3] == v[2]
    requires s[4] == Plus(v[3], t1) && s[5] == v[4] && s[6] == v[5] && s[7] == v[6]
    ensures s == Round(v, k, w)
  {
    hide T1, T2, Plus;
  }

  /** `sha256_transf`, on one block. */
  method TransformBlock(h: array<bv32>, b: Block)
    requires h.Length == 8
    modifies h
    ensures h[..] == Compress(old(h[..]), b)
  {
    hide W, Constant, Round, Rounds, Plus, Sum;
    ghost var start: Words := h[..];
    var w := Schedule(b);
    var wv := new bv32[8];
    for j := 0 to 8
      invariant wv[..j] == h[..j] && h[..] == start
      invariant forall t :: 0 <= t < 64 ==> w[t] == W(b, t)
    {
      wv[j] := h[j];
    }
    assert wv[..] == start;
    RoundAt(start, b, 0);
    for j := 0 to 64
      invariant wv[..] == Rounds(start, b, j) && h[..] == start
      invariant forall t :: 0 <= t < 64 ==> w[t] == W(b, t)
    {
      RoundAt(start, b, j);
      RunRound(wv, Constant(j), w[j]);
    }
    for j := 0 to 8
      invariant wv[..] == Rounds(start, b, 64)
      invariant forall i :: 0 <= i < 8 ==> h[i] == if i < j then Plus(start[i], wv[i]) else start[i]
    {
      h[j] := Plus(h[j], wv[j]);
    }
    SumAt(start, wv[..], h[..]);
  }

  lemma SumAt(h: Words, v: Words, s: Words)
    requires forall i :: 0 <= i < 8 ==> s[i] == Plus(h[i], v[i])
    ensures s == Sum(h, v)
  {
    hide Plus;
  }

  // ---------------------------------------------------------------- many blocks

  lemma {:induction false} CompressFront(h: Words, data: Bytes, more: Bytes, n: nat)
    requires 64 * n <= |data|
    ensures CompressAll(h, data + more, n) == CompressAll(h, data, n)
  {
    hide Compress;
    if n > 0 {
      CompressFront(h, data, more, n - 1);
      assert (data + more)[64 * (n - 1)..64 * n] == data[64 * (n - 1)..64 * n];
    }
  }

  /** Hashing blocks after blocks is hashing all of them. */
  lemma {:induction false} CompressMore(h: Words, data: Bytes, more: Bytes, m: nat, n: nat)
    requires 64 * m == |data| && 64 * n <= |more|
    ensures CompressAll(h, data + more, m + n) == CompressAll(CompressAll(h, data, m), more, n)
  {
    hide Compress;
    if n == 0 {
      CompressFront(h, data, more, m);
    } else {
      CompressMore(h, data, more, m, n - 1);
      assert (data + more)[64 * (m + n - 1)..64 * (m + n)] == more[64 * (n - 1)..64 * n];
    }
  }

  lemma {:induction false} CompressSlice(h: Words, data: Bytes, length: nat, n: nat)
    requires 64 * n <= length <= |data|
    ensures CompressAll(h, data[..length], n) == CompressAll(h, data, n)
  {
    assert data == data[..length] + data[length..];
    CompressFront(h, data[..length], data[length..], n);
  }

  /** `sha256_transf`. */
  method Transform(h: array<bv32>, message: Bytes, blockNb: nat)
    requires h.Length == 8 && 64 * blockNb <= |message|
    modifies h
    ensures h[..] == CompressAll(old(h[..]), message, blockNb)
  {
    hide Compress;
    ghost var start: Words := h[..];
    for i := 0 to blockNb
      invariant h[..] == CompressAll(start, message, i)
    {
      TransformBlock(h, message[64 * i..64 * i + 64]);
    }
  }

  // ---------------------------------------------------------------- the context

  /** What a context holds after the bytes m: the hash of the whole blocks, and the rest. */
  ghost predicate Absorbed(h: seq<bv32>, block: Bytes, len: nat, totLen: nat, m: Bytes) {
    |h| == 8 && |block| == 128 && len == |m| % 64 && totLen == (|m| - len) % WRAP
    && block[..len] == m[|m| - len..]
    && h == CompressAll(Initial(), m[..|m| - len], (|m| - len) / 64)
  }

  lemma NothingAbsorbed(h: seq<bv32>, block: Bytes)
    requires h == Initial() && |block| == 128
    ensures Absorbed(h, block, 0, 0, [])
  {
  }

  /** A short piece only goes to the rest. */
  lemma AbsorbShort(h: seq<bv32>, block: Bytes, next: Bytes, len: nat, totLen: nat, m: Bytes, more: Bytes)
    requires Absorbed(h, block, len, totLen, m) && len + |more| < 64
    requires |next| == 128 && next[..len + |more|] == block[..len] + more
    ensures Absorbed(h, next, len + |more|, totLen, m + more)
  {
    hide CompressAll;
    var all, cut := m + more, |m| - len;
    RestGrows(|m|, |more|);
    assert all[..cut] == m[..cut] && all[cut..] == m[cut..] + more;
  }

  lemma RestGrows(length: nat, more: nat)
    requires length % 64 + more < 64
    ensures (length + more) % 64 == length % 64 + more
    ensures length + more - (length + more) % 64 == length - length % 64
  {
  }

  /** A long piece completes the block, fills further blocks, and leaves a rest. */
  lemma AbsorbLong(h: seq<bv32>, block: Bytes, len: nat, totLen: nat, m: Bytes, more: Bytes, first: Bytes,
        shifted: Bytes,
                   blockNb: nat, next: Bytes, rest: nat)
    requires Absorbed(h, block, len, totLen, m) && len + |more| >= 64
    requires more == first + shifted && |first| == 64 - len
    requires blockNb == |shifted| / 64 && rest == |shifted| % 64
    requires |next| == 128 && next[..rest] == shifted[64 * blockNb..]
    ensures |block[..len] + first| == 64
    ensures Absorbed(CompressAll(CompressAll(h, block[..len] + first, 1), shifted, blockNb), next, rest,
                     (totLen + 64 * (blockNb + 1)) % WRAP, m + more)
  {
    hide CompressAll;
    var all, cut := m + more, |m| - len;
    var full := block[..len] + first;
    var head := m[..cut];
    LongParts(m, len, first, shifted, block, rest);
    CompressMore(Initial(), head, full, cut / 64, 1);
    CompressMore(Initial(), head + full, shifted, cut / 64 + 1, blockNb);
    CompressSlice(Initial(), all, |all| - rest, cut / 64 + 1 + blockNb);
    WrapSum(cut, 64 * (blockNb + 1));
  }

  lemma LongParts(m: Bytes, len: nat, first: Bytes, shifted: Bytes, block: Bytes, rest: nat)
    requires len == |m| % 64 && |first| == 64 - len && len <= |block| && block[..len] == m[|m| - len..]
    requires rest == |shifted| % 64
    ensures var all, cut, n := m + (first + shifted), |m| - len, |shifted| / 64;
      all == m[..cut] + (block[..len] + first) + shifted && cut % 64 == 0
      && |all| % 64 == rest && |all| - rest == cut + 64 * (n + 1) && (|all| - rest) / 64 == cut / 64 + 1 + n
      && all[|all| - rest..] == shifted[64 * n..]
  {
    var all, cut := m + (first + shifted), |m| - len;
    assert m == m[..cut] + block[..len];
    assert |all| == cut + 64 + |shifted| && cut % 64 == 0;
  }

  // ---------------------------------------------------------------- padding

  /** The padding of `sha256_final`: the length field's upper half is always zero. */
  function CodePadded(m: Bytes): (p: Bytes)
    ensures |p| % 64 == 0
  {
    m + [0x80] + Zeros(ZeroCount(|m|)) + Zeros(4) + BigEndian32(8 * |m| % WRAP)
  }

  /** The padding is that of FIPS 180-2 exactly for messages of less than 2 to the 29 bytes. */
  lemma PaddingAgrees(m: Bytes)
    requires |m| < 0x2000_0000_0000_0000
    ensures CodePadded(m) == Padded(m) <==> |m| < 0x2000_0000
  {
    var n := 8 * |m|;
    LowBytes(n);
    HighBytes(n / WRAP);
    hide BigEndian32, ZeroCount;
    var front := m + [0x80] + Zeros(ZeroCount(|m|));
    var code, fips := front + (Zeros(4) + BigEndian32(n)), front + (BigEndian32(n / WRAP) + BigEndian32(n));
    assert CodePadded(m) == code && Padded(m) == fips;
    assert code[|front|..][..4] == Zeros(4) && fips[|front|..][..4] == BigEndian32(n / WRAP);
  }

  /** `sha256_ctx`. */
  class Context {
    const h: array<bv32>
    const block: array<bv8>
    var len: nat
    var totLen: nat
    ghost var fed: Bytes

    ghost predicate Valid()
      reads this, h, block
    {
      h.Length == 8 && block.Length == 128 && Absorbed(h[..], block[..], len, totLen, fed)
    }

    /** `sha256_init`. */
    constructor ()
      ensures Valid() && fresh(h) && fresh(block) && fed == []
    {
      h := new bv32[8](i requires 0 <= i < 8 => Initial()[i]);
      block := new bv8[128];
      len, totLen, fed := 0, 0, [];
      new;
      assert h[..] == Initial();
      NothingAbsorbed(h[..], block[..]);
    }

    /** `memcpy` into the block. */
    method Fill(at: nat, src: Bytes)
      requires block.Length == 128 && at + |src| <= 128
      modifies block
      ensures block[..] == old(block[..at]) + src + old(block[at + |src|..])
    {
      for i := 0 to |src|
        invariant block[..at + i] == old(block[..at]) + src[..i]
        invariant block[at + |src|..] == old(block[at + |src|..])
        invariant forall k :: at + i <= k < 128 ==> block[k] == old(block[k])
      {
        block[at + i] := src[i];
      }
      assert block[..] == block[..at + |src|] + block[at + |src|..];
    }

    /** `memcpy` of a whole context. */
    method CopyFrom(other: Context)
      requires h.Length == 8 && block.Length == 128 && other.Valid()
      requires other != this && other.h != h && other.block != block
      modifies this, h, block
      ensures Valid() && fed == other.fed
    {
      AbsorbedLen(other.h[..], other.block[..], other.len, other.totLen, other.fed);
      hide Absorbed;
      for i := 0 to 8
        invariant h[..i] == other.h[..i]
        invariant other.h[..] == old(other.h[..])
      {
        h[i] := other.h[i];
      }
      for i := 0 to 128
        invariant block[..i] == other.block[..i]
        invariant other.block[..] == old(other.block[..]) && h[..8] == other.h[..8]
        invariant other.h[..] == old(other.h[..])
      {
        block[i] := other.block[i];
      }
      len, totLen, fed := other.len, other.totLen, other.fed;
      assert h[..] == h[..8] == other.h[..8] == other.h[..];
      assert block[..] == block[..128] == other.block[..128] == other.block[..];
    }

    /** `sha256_update`. */
    method Update(message: Bytes)
      requires Valid() && |message| < 0x8000_0000
      modifies this, h, block
      ensures Valid() && fed == old(fed) + message
    {
      hide Absorbed, CompressAll;
      ghost var h0, b0, m := h[..], block[..], fed;
      AbsorbedLen(h0, b0, len, totLen, m);
      var tmpLen := 64 - len;
      var remLen := if |message| < tmpLen then |message| else tmpLen;
      Fill(len, message[..remLen]);
      if len + |message| < 64 {
        assert block[..len + |message|] == b0[..len] + message;
        AbsorbShort(h0, b0, block[..], len, totLen, m, message);
        len, fed := len + |message|, fed + message;
      } else {
        assert block[..64] == b0[..len] + message[..remLen];
        TakeBlocks(message, remLen, b0);
      }
    }

    /** What `sha256_update` does once the first block is full. */
    method TakeBlocks(message: Bytes, remLen: nat, ghost b0: Bytes)
      requires h.Length == 8 && block.Length == 128 && len < 64 && remLen == 64 - len <= |message|
      requires Absorbed(h[..], b0, len, totLen, fed) && |b0| == 128 && block[..64] == b0[..len] + message[..remLen]
      modifies this, h, block
      ensures Valid() && fed == old(fed) + message
    {
      hide Absorbed, CompressAll;
      ghost var h0 := h[..];
      var shifted := message[remLen..];
      var newLen := |message| - remLen;
      var blockNb := newLen / 64;
      var rest := newLen % 64;
      Transform(h, block[..64], 1);
      Transform(h, shifted, blockNb);
      Fill(0, shifted[64 * blockNb..64 * blockNb + rest]);
      assert message == message[..remLen] + shifted;
      assert block[..rest] == shifted[64 * blockNb..];
      AbsorbLong(h0, b0, len, totLen, fed, message, message[..remLen], shifted, blockNb, block[..], rest);
      len, totLen, fed := rest, (totLen + 64 * (blockNb + 1)) % WRAP, fed + message;
    }

    /** The stores of `sha256_final` behind the rest of the message. */
    method Pad(pmLen: nat, lenB: nat)
      requires block.Length == 128 && len + 5 <= pmLen <= 128
      modifies block
      ensures block[..pmLen] == old(block[..len]) + [0x80] + Zeros(pmLen - len - 5) + BigEndian32(lenB)
    {
      hide BigEndian32;
      ghost var front := block[..len];
      Fill(len, Zeros(pmLen - len));
      assert block[..pmLen] == front + Zeros(pmLen - len);
      block[len] := 0x80;
      assert block[..pmLen - 4] == front + [0x80] + Zeros(pmLen - len - 5);
      Fill(pmLen - 4, BigEndian32(lenB));
    }

    /** `sha256_final`. */
    method Final() returns (digest: Bytes)
      requires Valid()
      modifies this, h, block
      ensures digest == Output(CompressAll(Initial(), CodePadded(fed), |CodePadded(fed)| / 64)) && fed == old(fed)
      ensures |fed| < 0x2000_0000 ==> digest == Digest(fed)
    {
      hide Absorbed, CompressAll, CodePadded, Padded, Output, BigEndian32, Zeros, Initial;
      ghost var h0, b0 := h[..], block[..];
      AbsorbedLen(h0, b0, len, totLen, fed);
      var blockNb := 1 + if 55 < len % 64 then 1 else 0;
      var lenB := (totLen + len) * 8 % WRAP;
      var pmLen := 64 * blockNb;
      Pad(pmLen, lenB);
      PaddedTail(h0, b0, len, totLen, fed, block[..pmLen], blockNb);
      Transform(h, block[..pmLen], blockNb);
      digest := OutputOf(h);
      if |fed| < 0x2000_0000 { PaddingAgrees(fed); }
    }
  }

  /** The last loop of `sha256_final`. */
  method OutputOf(h: array<bv32>) returns (digest: Bytes)
    requires h.Length == 8
    ensures digest == Output(h[..])
  {
    hide WordBytes;
    digest := [];
    ghost var w: Words := h[..];
    for i := 0 to 8
      invariant digest == OutputTo(w, i)
    {
      digest := digest + WordBytes(h[i]);
    }
    OutputWhole(w);
  }

  lemma OutputWhole(h: Words)
    ensures OutputTo(h, 8) == Output(h)
  {
    hide WordBytes;
    assert OutputTo(h, 1) == WordBytes(h[0]);
    assert OutputTo(h, 2) == OutputTo(h, 1) + WordBytes(h[1]);
    assert OutputTo(h, 3) == OutputTo(h, 2) + WordBytes(h[2]);
    assert OutputTo(h, 4) == WordBytes(h[0]) + WordBytes(h[1]) + WordBytes(h[2]) + WordBytes(h[3]);
    assert OutputTo(h, 5) == OutputTo(h, 4) + WordBytes(h[4]);
    assert OutputTo(h, 6) == OutputTo(h, 5) + WordBytes(h[5]);
    assert OutputTo(h, 7) == OutputTo(h, 6) + WordBytes(h[6]);
  }

  function OutputTo(h: Words, i: nat): Bytes
    requires i <= 8
  {
    if i == 0 then [] else OutputTo(h, i - 1) + WordBytes(h[i - 1])
  }

  lemma Rounded(length: nat)
    ensures (length - length % 64) % 64 == 0 && length % 64 <= length
  {
  }

  /** The buffer with its padding is the end of the padded message. */
  lemma PaddedTail(h: seq<bv32>, block: Bytes, len: nat, totLen: nat, m: Bytes, tail: Bytes, blockNb: nat)
    requires Absorbed(h, block, len, totLen, m) && blockNb == (if 55 < len then 2 else 1)
    requires tail == block[..len] + [0x80] + Zeros(64 * blockNb - len - 5) + BigEndian32((totLen + len) * 8 % WRAP)
    ensures |tail| == 64 * blockNb
    ensures CompressAll(h, tail, blockNb) == CompressAll(Initial(), CodePadded(m), |CodePadded(m)| / 64)
  {
    hide CompressAll, BigEndian32, CodePadded, Initial;
    var cut := |m| - len;
    Rounded(|m|);
    assert m == m[..cut] + block[..len];
    PaddedEnd(m, m[..cut], block[..len], blockNb, totLen);
    CompressMore(Initial(), m[..cut], tail, cut / 64, blockNb);
  }

  lemma PaddedEnd(m: Bytes, front: Bytes, rest: Bytes, blockNb: nat, totLen: nat)
    requires m == front + rest && |rest| == |m| % 64 && blockNb == (if 55 < |rest| then 2 else 1)
    requires totLen == |front| % WRAP
    ensures CodePadded(m) == front + (rest + [0x80] + Zeros(64 * blockNb - |rest| - 5) + BigEndian32((totLen + |rest|) * 8 % WRAP))
  {
    TailZeros(|m|, |rest|, blockNb);
    LengthBits(|front|, |rest|);
    hide BigEndian32, ZeroCount;
  }

  lemma TailZeros(length: nat, len: nat, blockNb: nat)
    requires len == length % 64 && blockNb == (if 55 < len then 2 else 1)
    ensures Zeros(ZeroCount(length)) + Zeros(4) == Zeros(64 * blockNb - len - 5)
  {
  }

  lemma AbsorbedLen(h: seq<bv32>, block: Bytes, len: nat, totLen: nat, m: Bytes)
    requires Absorbed(h, block, len, totLen, m)
    ensures |h| == 8 && |block| == 128 && len < 64
  {
  }

  /** However a message is cut into updates, the digest is that of the whole. */
  method HashPieces(pieces: seq<Bytes>) returns (digest: Bytes)
    requires |Joined(pieces, |pieces|)| < 0x2000_0000
    ensures digest == Digest(Joined(pieces, |pieces|))
  {
    hide Digest, Absorbed, Joined;
    JoinedNone(pieces);
    var ctx := new Context();
    for i := 0 to |pieces|
      invariant fresh(ctx) && fresh(ctx.h) && fresh(ctx.block) && ctx.Valid() && ctx.fed == Joined(pieces, i)
    {
      JoinedGrows(pieces, i + 1);
      JoinedNext(pieces, i);
      ctx.Update(pieces[i]);
    }
    digest := ctx.Final();
  }

  /** `sha256`. */
  method Hash(message: Bytes) returns (digest: Bytes)
    requires |message| < 0x2000_0000
    ensures digest == Digest(message)
  {
    hide Digest;
    var ctx := new Context();
    ctx.Update(message);
    assert [] + message == message;
    digest := ctx.Final();
  }
}
