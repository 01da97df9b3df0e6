/** The context and its CBC and CTR calls, working in place on the caller's buffer. */
module AesBuffers {
  import opened AesField
  import opened AesRounds
  import opened AesCode
  import opened AesKeys
  import opened AesModes

  /** The bytes the CBC loops work on: the length, rounded up to whole blocks. */
  function WholeBlocks(length: nat): (whole: nat)
    ensures whole % 16 == 0 && length <= whole < length + 16
  {
    (length + 15) / 16 * 16
  }

  /** The buffer with its first n blocks encrypted and the rest still to do. */
  ghost predicate Sofar(now: seq<bv8>, was: seq<bv8>, done: seq<bv8>, n: nat) {
    |now| == |was| && |done| <= |was| && 16 * n <= |done|
    && forall k :: 0 <= k < |was| ==> now[k] == if k < 16 * n then done[k] else was[k]
  }

  lemma SofarMore(now: seq<bv8>, later: seq<bv8>, was: seq<bv8>, done: seq<bv8>, n: nat)
    requires Sofar(now, was, done, n) && 16 * n + 16 <= |done|
    requires Changed(now, later, 16 * n, BlockAt(done, 16 * n))
    ensures Sofar(later, was, done, n + 1)
  {
  }

  lemma SofarBlocks(now: seq<bv8>, was: seq<bv8>, done: seq<bv8>, n: nat)
    requires Sofar(now, was, done, n)
    ensures |now| == |was| && 16 * n <= |done| <= |was|
    ensures 16 * n + 16 <= |was| ==> BlockAt(now, 16 * n) == BlockAt(was, 16 * n)
    ensures n > 0 ==> BlockAt(now, 16 * (n - 1)) == BlockAt(done, 16 * (n - 1))
  {
  }

  lemma BlockOfFront(p: seq<bv8>, length: nat, at: nat)
    requires at + 16 <= length <= |p|
    ensures BlockAt(p[..length], at) == BlockAt(p, at)
  {
  }

  class Context {
    const roundKey: array<bv8>
    const iv: array<bv8>

    ghost predicate Valid() {
      roundKey.Length == 176 && iv.Length == 16 && roundKey != iv
    }

    /** `AES_init_ctx_iv`. */
    constructor (key: Block, start: Block)
      ensures Valid() && fresh(roundKey) && fresh(iv)
      ensures roundKey[..] == KeySchedule(key) && iv[..] == start
    {
      var w, v := new bv8[176], new bv8[16](i requires 0 <= i < 16 => start[i]);
      roundKey, iv := w, v;
      new;
      KeyExpansion(w, key);
      assert iv[..] == start;
    }

    /** `XorWithIv`, with the IV at a position of an array that may be the buffer itself. */
    method XorWithIv(a: array<bv8>, at: nat, v: array<bv8>, from: nat)
      requires at + 16 <= a.Length && from + 16 <= v.Length && (a == v ==> from + 16 <= at || at + 16 <= from)
      modifies a
      ensures Changed(old(a[..]), a[..], at, Xor(BlockAt(old(a[..]), at), BlockAt(old(v[..]), from)))
    {
      for i := 0 to 16
        invariant forall k :: 0 <= k < a.Length ==>
          a[k] == if at <= k < at + i then Add(old(a[k]), old(v[from + k - at])) else old(a[k])
        invariant forall k :: from <= k < from + 16 ==> v[k] == old(v[k])
      {
        a[at + i] := a[at + i] ^ v[from + i];
      }
    }

    /** `memcpy` of one block into the context. */
    method StoreIv(v: array<bv8>, from: nat)
      requires Valid() && from + 16 <= v.Length && (v == iv ==> from == 0)
      modifies iv
      ensures iv[..] == BlockAt(old(v[..]), from)
    {
      for i := 0 to 16
        invariant forall k :: 0 <= k < 16 ==> iv[k] == if k < i then old(v[from + k]) else old(iv[k])
        invariant forall k :: from <= k < from + 16 && v != iv ==> v[k] == old(v[k])
      {
        iv[i] := v[from + i];
      }
    }

    /** One round of the loop of `AES_CBC_encrypt_buffer`. */
    method EncryptBlock(buf: array<bv8>, n: nat, source: array<bv8>, from: nat,
                        ghost was: seq<bv8>, ghost p: Blocks, ghost start: Block, ghost w: Schedule)
      requires Valid() && buf != roundKey && buf != iv && roundKey[..] == w
      requires 16 * n < |p| && 16 * n + 16 <= buf.Length
      requires from + 16 <= source.Length && (buf == source ==> from + 16 <= 16 * n)
      requires Sofar(buf[..], was, CbcEncrypted(p, start, w), n)
      requires BlockAt(buf[..], 16 * n) == BlockAt(p, 16 * n)
      requires BlockAt(source[..], from) == CbcChain(p, start, w, n)
      modifies buf
      ensures Sofar(buf[..], was, CbcEncrypted(p, start, w), n + 1)
      ensures CbcChain(p, start, w, n + 1) == BlockAt(CbcEncrypted(p, start, w), 16 * n)
    {
      hide Sofar, Changed, Cipher, Xor, BlockAt, CbcEncrypted;
      ghost var now := buf[..];
      XorWithIv(buf, 16 * n, source, from);
      ghost var mixed := buf[..];
      ghost var x := Xor(BlockAt(p, 16 * n), CbcChain(p, start, w, n));
      ChangedBlock(now, mixed, 16 * n, x);
      CipherInPlace(buf, 16 * n, roundKey);
      ChangedAgain(now, mixed, buf[..], 16 * n, x, Cipher(x, w));
      CbcBlockAt(p, start, w, n);
      SofarMore(now, buf[..], was, CbcEncrypted(p, start, w), n);
    }

    /** `AES_CBC_encrypt_buffer`; a length that is no multiple of 16 is rounded up. */
    method CbcEncrypt(buf: array<bv8>, length: nat)
      requires Valid() && WholeBlocks(length) <= buf.Length && buf != roundKey && buf != iv
      modifies buf, iv
      ensures var whole := WholeBlocks(length);
        buf[..whole] == CbcEncrypted(old(buf[..whole]), old(iv[..]), roundKey[..]) && buf[whole..] == old(buf[whole..])
      ensures iv[..] == CbcChain(old(buf[..WholeBlocks(length)]), old(iv[..]), roundKey[..], WholeBlocks(length) / 16)
    {
      hide Sofar, Changed, Cipher, Xor, BlockAt, CbcEncrypted;
      ghost var was, start, w := buf[..], iv[..], roundKey[..];
      ghost var whole := WholeBlocks(length);
      ghost var p: Blocks := was[..whole];
      ghost var c := CbcEncrypted(p, start, w);
      ghost var blocks := whole / 16;
      assert whole == 16 * blocks;
      var n := 0;
      var source, from := iv, 0;
      SofarNone(was, c);
      SelfBlock(iv[..]);
      while 16 * n < length
        invariant n <= blocks && Sofar(buf[..], was, c, n)
        invariant if n == 0 then source == iv && from == 0 else source == buf && from == 16 * (n - 1)
        invariant from + 16 <= source.Length && iv[..] == start && roundKey[..] == w
        invariant BlockAt(source[..], from) == CbcChain(p, start, w, n)
        decreases blocks - n
      {
        SofarBlocks(buf[..], was, c, n);
        BlockOfFront(was, whole, 16 * n);
        EncryptBlock(buf, n, source, from, was, p, start, w);
        SofarBlocks(buf[..], was, c, n + 1);
        source, from := buf, 16 * n;
        n := n + 1;
      }
      SofarAll(buf[..], was, c, n);
      StoreIv(source, from);
    }

    /** One round of the loop of `AES_CBC_decrypt_buffer`. */
    method DecryptBlock(buf: array<bv8>, n: nat, storeNextIv: array<bv8>,
                        ghost was: seq<bv8>, ghost c: Blocks, ghost start: Block, ghost w: Schedule)
      requires Valid() && buf != roundKey && buf != iv && roundKey[..] == w
      requires storeNextIv.Length == 16 && storeNextIv != buf && storeNextIv != iv && storeNextIv != roundKey
      requires 16 * n < |c| && 16 * n + 16 <= buf.Length
      requires Sofar(buf[..], was, CbcDecrypted(c, start, w), n)
      requires BlockAt(buf[..], 16 * n) == BlockAt(c, 16 * n) && iv[..] == UncbcChain(c, start, n)
      modifies buf, iv, storeNextIv
      ensures Sofar(buf[..], was, CbcDecrypted(c, start, w), n + 1)
      ensures iv[..] == UncbcChain(c, start, n + 1)
    {
      hide Sofar, Changed, InvCipher, Xor, BlockAt, CbcDecrypted;
      ghost var now := buf[..];
      CopyBlock(buf, 16 * n, storeNextIv);
      ghost var x := BlockAt(c, 16 * n);
      InvCipherInPlace(buf, 16 * n, roundKey);
      ghost var plain := buf[..];
      ChangedBlock(now, plain, 16 * n, InvCipher(x, w));
      SelfBlock(iv[..]);
      XorWithIv(buf, 16 * n, iv, 0);
      ChangedAgain(now, plain, buf[..], 16 * n, InvCipher(x, w), UncbcBlock(c, start, w, n));
      UncbcBlockAt(c, start, w, n);
      SofarMore(now, buf[..], was, CbcDecrypted(c, start, w), n);
      SelfBlock(storeNextIv[..]);
      StoreIv(storeNextIv, 0);
    }

    /** `AES_CBC_decrypt_buffer`, likewise. */
    method CbcDecrypt(buf: array<bv8>, length: nat)
      requires Valid() && WholeBlocks(length) <= buf.Length && buf != roundKey && buf != iv
      modifies buf, iv
      ensures var whole := WholeBlocks(length);
        buf[..whole] == CbcDecrypted(old(buf[..whole]), old(iv[..]), roundKey[..]) && buf[whole..] == old(buf[whole..])
      ensures iv[..] == UncbcChain(old(buf[..WholeBlocks(length)]), old(iv[..]), WholeBlocks(length) / 16)
    {
      hide Sofar, Changed, InvCipher, Xor, BlockAt, CbcDecrypted;
      ghost var was, start, w := buf[..], iv[..], roundKey[..];
      ghost var whole := WholeBlocks(length);
      ghost var c: Blocks := was[..whole];
      ghost var p := CbcDecrypted(c, start, w);
      ghost var blocks := whole / 16;
      assert whole == 16 * blocks;
      var storeNextIv := new bv8[16];
      var n := 0;
      SofarNone(was, p);
      while 16 * n < length
        invariant n <= blocks && Sofar(buf[..], was, p, n)
        invariant roundKey[..] == w && iv[..] == UncbcChain(c, start, n)
        decreases blocks - n
      {
        SofarBlocks(buf[..], was, p, n);
        BlockOfFront(was, whole, 16 * n);
        DecryptBlock(buf, n, storeNextIv, was, c, start, w);
        n := n + 1;
      }
      SofarAll(buf[..], was, p, n);
    }

    /** The loop of `AES_CTR_xcrypt_buffer` that steps the counter. */
    method IncrementIv()
      requires Valid()
      modifies iv
      ensures iv[..] == Incremented(old(iv[..]), 16)
    {
      var bi := 15;
      while bi >= 0
        invariant -1 <= bi <= 15 && Incremented(iv[..], bi + 1) == Incremented(old(iv[..]), 16)
        decreases bi
      {
        ghost var now: Block := iv[..];
        if iv[bi] == 255 {
          iv[bi] := 0;
          assert iv[..] == now[bi := 0];
          bi := bi - 1;
          continue;
        }
        iv[bi] := iv[bi] + 1;
        assert iv[..] == now[bi := now[bi] + 1];
        break;
      }
    }

    /** The start of a block in its loop: the counter is enciphered and then stepped. */
    method NextStream(buffer: array<bv8>)
      requires Valid() && buffer.Length == 16 && buffer != iv && buffer != roundKey
      modifies buffer, iv
      ensures buffer[..] == Cipher(old(iv[..]), roundKey[..]) && iv[..] == Incremented(old(iv[..]), 16)
    {
      hide Cipher, Changed, Incremented;
      CopyBlock(iv, 0, buffer);
      SelfBlock(iv[..]);
      SelfBlock(buffer[..]);
      ghost var counter := buffer[..];
      CipherInPlace(buffer, 0, roundKey);
      ChangedBlock(counter, buffer[..], 0, Cipher(counter, roundKey[..]));
      SelfBlock(buffer[..]);
      IncrementIv();
    }

    /** `AES_CTR_xcrypt_buffer`, on any length. */
    method CtrXcrypt(buf: array<bv8>, length: nat)
      requires Valid() && length <= buf.Length && buf != roundKey && buf != iv
      modifies buf, iv
      ensures buf[..length] == CtrCrypted(old(buf[..length]), old(iv[..]), roundKey[..])
      ensures buf[length..] == old(buf[length..])
      ensures iv[..] == Counter(old(iv[..]), BlocksFor(length))
    {
      hide Cipher, Changed, Incremented;
      ghost var was, start, w := buf[..], iv[..], roundKey[..];
      var buffer := new bv8[16];
      var bi := 16;
      for i := 0 to length
        invariant fresh(buffer) && roundKey[..] == w && bi == (if i % 16 == 0 then 16 else i % 16)
        invariant i > 0 ==> buffer[..] == Cipher(Counter(start, (i - 1) / 16), w)
        invariant iv[..] == Counter(start, BlocksFor(i))
        invariant forall k :: 0 <= k < buf.Length ==>
          buf[k] == if k < i then Add(was[k], StreamByte(start, w, k)) else was[k]
      {
        if bi == 16 {
          NextStream(buffer);
          bi := 0;
        }
        buf[i] := buf[i] ^ buffer[bi];
        bi := bi + 1;
      }
    }
  }

  lemma SelfBlock(v: seq<bv8>)
    requires |v| == 16
    ensures BlockAt(v, 0) == v
  {
  }

  lemma SofarNone(was: seq<bv8>, done: seq<bv8>)
    requires |done| <= |was|
    ensures Sofar(was, was, done, 0)
  {
  }

  lemma SofarAll(now: seq<bv8>, was: seq<bv8>, done: seq<bv8>, n: nat)
    requires Sofar(now, was, done, n) && 16 * n == |done|
    ensures now[..|done|] == done && now[|done|..] == was[|done|..]
  {
  }

  lemma UncbcBlockAt(c: Blocks, iv: Block, w: Schedule, n: nat)
    requires 16 * n < |c|
    ensures BlockAt(CbcDecrypted(c, iv, w), 16 * n) == UncbcBlock(c, iv, w, n)
  {
    hide UncbcBlock;
    forall k | 0 <= k < 16 ensures BlockAt(CbcDecrypted(c, iv, w), 16 * n)[k] == UncbcBlock(c, iv, w, n)[k] {
      assert (16 * n + k) / 16 == n && (16 * n + k) % 16 == k;
    }
  }

  method CopyBlock(a: array<bv8>, at: nat, b: array<bv8>)
    requires at + 16 <= a.Length && b.Length == 16 && a != b
    modifies b
    ensures b[..] == BlockAt(a[..], at)
  {
    for i := 0 to 16
      invariant forall k :: 0 <= k < i ==> b[k] == a[at + k]
    {
      b[i] := a[at + i];
    }
  }
}
