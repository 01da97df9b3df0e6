/** The CBC and CTR modes of SP 800-38A on buffers of any length. */
module AesModes {
  import opened AesField
  import opened AesRounds
  import opened AesCode

  /** A buffer of whole blocks. */
  type Blocks = p: seq<bv8> | |p| % 16 == 0

  // ---------------------------------------------------------------- CBC: section 6.2

  /** Block n of the ciphertext. */
  function CbcBlock(p: Blocks, iv: Block, w: Schedule, n: nat): Block
    requires 16 * n < |p|
    decreases n, 1
  {
    Cipher(Xor(BlockAt(p, 16 * n), CbcChain(p, iv, w, n)), w)
  }

  /** What block n is combined with, and behind the last block the IV of the next call. */
  function CbcChain(p: Blocks, iv: Block, w: Schedule, n: nat): Block
    requires 16 * n <= |p|
    decreases n, 0
  {
    if n == 0 then iv else CbcBlock(p, iv, w, n - 1)
  }

  function CbcEncrypted(p: Blocks, iv: Block, w: Schedule): (c: Blocks)
    ensures |c| == |p|
  {
    seq(|p|, i requires 0 <= i < |p| => CbcBlock(p, iv, w, i / 16)[i % 16])
  }

  /** The same for decryption. */
  function UncbcChain(c: Blocks, iv: Block, n: nat): Block
    requires 16 * n <= |c|
  {
    if n == 0 then iv else BlockAt(c, 16 * (n - 1))
  }

  function UncbcBlock(c: Blocks, iv: Block, w: Schedule, n: nat): Block
    requires 16 * n < |c|
  {
    Xor(InvCipher(BlockAt(c, 16 * n), w), UncbcChain(c, iv, n))
  }

  function CbcDecrypted(c: Blocks, iv: Block, w: Schedule): (p: Blocks)
    ensures |p| == |c|
  {
    seq(|c|, i requires 0 <= i < |c| => UncbcBlock(c, iv, w, i / 16)[i % 16])
  }

  lemma CbcBlockAt(p: Blocks, iv: Block, w: Schedule, n: nat)
    requires 16 * n < |p|
    ensures BlockAt(CbcEncrypted(p, iv, w), 16 * n) == CbcBlock(p, iv, w, n)
  {
    hide CbcBlock;
    forall k | 0 <= k < 16 ensures BlockAt(CbcEncrypted(p, iv, w), 16 * n)[k] == CbcBlock(p, iv, w, n)[k] {
      assert (16 * n + k) / 16 == n && (16 * n + k) % 16 == k;
    }
  }

  lemma UncbcBlockUndoes(p: Blocks, iv: Block, w: Schedule, n: nat)
    requires 16 * n < |p|
    ensures UncbcBlock(CbcEncrypted(p, iv, w), iv, w, n) == BlockAt(p, 16 * n)
  {
    hide Cipher, InvCipher, Xor, CbcEncrypted, BlockAt;
    var block, chain := BlockAt(p, 16 * n), CbcChain(p, iv, w, n);
    CbcBlockAt(p, iv, w, n);
    if n > 0 { CbcBlockAt(p, iv, w, n - 1); }
    InvCipherUndoes(Xor(block, chain), w);
    XorXor(block, chain);
  }

  /** Decryption undoes encryption, and both leave the same IV for the next call. */
  lemma CbcRoundTrip(p: Blocks, iv: Block, w: Schedule)
    ensures CbcDecrypted(CbcEncrypted(p, iv, w), iv, w) == p
    ensures UncbcChain(CbcEncrypted(p, iv, w), iv, |p| / 16) == CbcChain(p, iv, w, |p| / 16)
  {
    hide CbcEncrypted, CbcBlock, UncbcBlock;
    var c := CbcEncrypted(p, iv, w);
    if p != [] { CbcBlockAt(p, iv, w, |p| / 16 - 1); }
    forall i | 0 <= i < |p| ensures CbcDecrypted(c, iv, w)[i] == p[i] {
      UncbcBlockUndoes(p, iv, w, i / 16);
    }
  }

  /** Two calls on consecutive buffers do what one call does on both. */
  lemma CbcChunks(p: Blocks, q: Blocks, iv: Block, w: Schedule)
    ensures CbcEncrypted(p + q, iv, w)
      == CbcEncrypted(p, iv, w) + CbcEncrypted(q, CbcChain(p, iv, w, |p| / 16), w)
    ensures CbcChain(p + q, iv, w, |p + q| / 16)
      == CbcChain(q, CbcChain(p, iv, w, |p| / 16), w, |q| / 16)
  {
    hide CbcBlock, CbcChain;
    var all, next := p + q, CbcChain(p, iv, w, |p| / 16);
    CbcSecond(p, q, iv, w, |q| / 16);
    forall i | 0 <= i < |all| ensures
      CbcEncrypted(all, iv, w)[i] == (CbcEncrypted(p, iv, w) + CbcEncrypted(q, next, w))[i] {
      if i < |p| {
        CbcFirst(p, q, iv, w, i / 16);
      } else {
        CbcSecond(p, q, iv, w, (i - |p|) / 16);
      }
    }
  }

  lemma {:induction false} CbcFirst(p: Blocks, q: Blocks, iv: Block, w: Schedule, n: nat)
    requires 16 * n <= |p|
    ensures CbcChain(p + q, iv, w, n) == CbcChain(p, iv, w, n)
    ensures 16 * n < |p| ==> CbcBlock(p + q, iv, w, n) == CbcBlock(p, iv, w, n)
  {
    hide Cipher, Xor;
    if n > 0 { CbcFirst(p, q, iv, w, n - 1); }
    if 16 * n < |p| { assert BlockAt(p + q, 16 * n) == BlockAt(p, 16 * n); }
  }

  lemma {:induction false} CbcSecond(p: Blocks, q: Blocks, iv: Block, w: Schedule, n: nat)
    requires 16 * n <= |q|
    ensures var next := CbcChain(p, iv, w, |p| / 16);
      CbcChain(p + q, iv, w, |p| / 16 + n) == CbcChain(q, next, w, n)
      && (16 * n < |q| ==> CbcBlock(p + q, iv, w, |p| / 16 + n) == CbcBlock(q, next, w, n))
  {
    hide Cipher, Xor, BlockAt;
    if n == 0 { CbcFirst(p, q, iv, w, |p| / 16); } else { CbcSecond(p, q, iv, w, n - 1); }
    if 16 * n < |q| { BlockBehind(p, q, n); }
  }

  lemma BlockBehind(p: Blocks, q: Blocks, n: nat)
    requires 16 * n < |q|
    ensures BlockAt(p + q, 16 * (|p| / 16 + n)) == BlockAt(q, 16 * n)
  {
  }

  // ---------------------------------------------------------------- CTR: section 6.5

  /** The counter one further, from its last byte to its byte k. */
  function Incremented(v: Block, k: nat): Block
    requires k <= 16
    decreases k
  {
    if k == 0 then v
    else if v[k - 1] == 255 then Incremented(v[k - 1 := 0], k - 1)
    else v[k - 1 := v[k - 1] + 1]
  }

  function Counter(iv: Block, n: nat): Block {
    if n == 0 then iv else Incremented(Counter(iv, n - 1), 16)
  }

  /** The first k bytes as a number, most significant first. */
  function Value(v: Block, k: nat): nat
    requires k <= 16
  {
    if k == 0 then 0 else 256 * Value(v, k - 1) + v[k - 1] as nat
  }

  function Power256(k: nat): nat {
    if k == 0 then 1 else 256 * Power256(k - 1)
  }

  const TWO_TO_128: nat := 0x1_0000_0000_0000_0000_0000_0000_0000_0000

  lemma WrapAround()
    ensures Power256(16) == TWO_TO_128
  {
    assert Power256(4) == 0x1_0000_0000;
    assert Power256(8) == 0x1_0000_0000_0000_0000;
    assert Power256(12) == 0x1_0000_0000_0000_0000_0000_0000;
  }

  lemma {:induction false} ValueFront(v: Block, u: Block, k: nat)
    requires k <= 16 && v[..k] == u[..k]
    ensures Value(v, k) == Value(u, k)
  {
    if k > 0 {
      assert v[k - 1] == v[..k][k - 1] == u[..k][k - 1];
      assert v[..k - 1] == v[..k][..k - 1] && u[..k - 1] == u[..k][..k - 1];
      ValueFront(v, u, k - 1);
    }
  }

  lemma IncrementedBack(v: Block, k: nat)
    requires k <= 16
    ensures Incremented(v, k)[k..] == v[k..]
    decreases k
  {
    if k > 0 && v[k - 1] == 255 {
      IncrementedBack(v[k - 1 := 0], k - 1);
      assert Incremented(v, k)[k..] == Incremented(v[k - 1 := 0], k - 1)[k - 1..][1..];
    }
  }

  lemma ByteMore(b: bv8)
    ensures b != 255 ==> (b + 1) as nat == b as nat + 1
    ensures b == 255 ==> b as nat == 255
    ensures b as nat <= 255
    ensures b as nat == 255 ==> b == 255
  {
  }

  lemma {:induction false} IncrementedValue(v: Block, k: nat)
    requires k <= 16
    ensures Value(v, k) < Power256(k)
    ensures Value(Incremented(v, k), k) == if Value(v, k) + 1 == Power256(k) then 0 else Value(v, k) + 1
    decreases k
  {
    if k > 0 {
      ByteMore(v[k - 1]);
      IncrementedValue(v[k - 1 := 0], k - 1);
      ValueFront(v, v[k - 1 := 0], k - 1);
      hide Incremented;
      if v[k - 1] == 255 { Carries(v, k); } else { ValueOfLast(v, k); }
    }
  }

  lemma Carries(v: Block, k: nat)
    requires 0 < k <= 16 && v[k - 1] == 255
    ensures Value(Incremented(v, k), k) == 256 * Value(Incremented(v[k - 1 := 0], k - 1), k - 1)
  {
    var u := v[k - 1 := 0];
    var m := Incremented(u, k - 1);
    IncrementedBack(u, k - 1);
    assert m[k - 1] == m[k - 1..][0] == u[k - 1..][0] == 0;
    hide Incremented;
    ByteMore(0);
  }

  lemma ValueOfLast(v: Block, k: nat)
    requires 0 < k <= 16 && v[k - 1] != 255
    ensures Value(Incremented(v, k), k) == Value(v, k) + 1
  {
    var u := v[k - 1 := v[k - 1] + 1];
    ByteMore(v[k - 1]);
    ValueFront(v, u, k - 1);
  }

  /** The counter counts modulo 2 to the 128. */
  lemma {:induction false} CounterValue(iv: Block, n: nat)
    ensures Value(Counter(iv, n), 16) == (Value(iv, 16) + n) % TWO_TO_128
  {
    hide Power256, Value, Incremented;
    WrapAround();
    IncrementedValue(iv, 16);
    if n > 0 {
      CounterValue(iv, n - 1);
      IncrementedValue(Counter(iv, n - 1), 16);
    }
  }

  /** Byte i of the key stream. */
  function StreamByte(iv: Block, w: Schedule, i: nat): bv8 {
    Cipher(Counter(iv, i / 16), w)[i % 16]
  }

  function CtrCrypted(p: seq<bv8>, iv: Block, w: Schedule): (c: seq<bv8>)
    ensures |c| == |p|
  {
    seq(|p|, i requires 0 <= i < |p| => Add(p[i], StreamByte(iv, w, i)))
  }

  /** How many blocks n bytes take. */
  function BlocksFor(n: nat): nat {
    (n + 15) / 16
  }

  /** Applied twice from one IV the mode changes nothing; the IV goes up by the number of blocks, modulo 2 to the 128. */
  lemma CtrInvolution(p: seq<bv8>, iv: Block, w: Schedule)
    ensures CtrCrypted(CtrCrypted(p, iv, w), iv, w) == p
    ensures Value(Counter(iv, BlocksFor(|p|)), 16) == (Value(iv, 16) + BlocksFor(|p|)) % TWO_TO_128
  {
    hide StreamByte;
    CounterValue(iv, BlocksFor(|p|));
    var c := CtrCrypted(p, iv, w);
    forall i | 0 <= i < |p| ensures CtrCrypted(c, iv, w)[i] == p[i] {
      AddOrder(p[i], StreamByte(iv, w, i), 0);
    }
  }

  /** Whole blocks may be handed over in several calls. */
  lemma CtrChunks(p: Blocks, q: seq<bv8>, iv: Block, w: Schedule)
    ensures CtrCrypted(p + q, iv, w) == CtrCrypted(p, iv, w) + CtrCrypted(q, Counter(iv, BlocksFor(|p|)), w)
    ensures Counter(iv, BlocksFor(|p + q|)) == Counter(Counter(iv, BlocksFor(|p|)), BlocksFor(|q|))
  {
    hide StreamByte, Counter;
    var next := Counter(iv, BlocksFor(|p|));
    CounterSum(iv, BlocksFor(|p|), BlocksFor(|q|));
    forall i | 0 <= i < |p + q| ensures
      CtrCrypted(p + q, iv, w)[i] == (CtrCrypted(p, iv, w) + CtrCrypted(q, next, w))[i] {
      if i >= |p| { StreamBehind(p, iv, w, i - |p|); }
    }
  }

  lemma StreamBehind(p: Blocks, iv: Block, w: Schedule, i: nat)
    ensures StreamByte(iv, w, |p| + i) == StreamByte(Counter(iv, BlocksFor(|p|)), w, i)
  {
    hide Cipher, Counter;
    assert (|p| + i) / 16 == |p| / 16 + i / 16 && (|p| + i) % 16 == i % 16;
    CounterSum(iv, |p| / 16, i / 16);
  }

  lemma {:induction false} CounterSum(iv: Block, m: nat, n: nat)
    ensures Counter(iv, m + n) == Counter(Counter(iv, m), n)
  {
    hide Incremented;
    if n > 0 { CounterSum(iv, m, n - 1); }
  }
}
