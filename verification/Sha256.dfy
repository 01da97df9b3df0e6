/** SHA-256 as FIPS 180-2 defines it. */
module Sha256 {
  import opened HashBytes

  type uint32 = n: int | 0 <= n < 0x1_0000_0000

  /** The eight words of a hash value, or the working variables a to h. */
  type Words = h: seq<bv32> | |h| == 8 witness seq(8, _ => 0)

  type Block = b: seq<bv8> | |b| == 64 witness seq(64, _ => 0)

  /** Section 5.3.2 of FIPS 180-2. */
  const H0: seq<uint32> := [
    0x6a09e667, 0xbb67ae85, 0x3c6ef372, 0xa54ff53a, 0x510e527f, 0x9b05688c, 0x1f83d9ab, 0x5be0cd19
  ]

  /** Section 4.2.2. */
  const K: seq<seq<uint32>> := [
    [0x428a2f98, 0x71374491, 0xb5c0fbcf, 0xe9b5dba5, 0x3956c25b, 0x59f111f1, 0x923f82a4, 0xab1c5ed5],
    [0xd807aa98, 0x12835b01, 0x243185be, 0x550c7dc3, 0x72be5d74, 0x80deb1fe, 0x9bdc06a7, 0xc19bf174],
    [0xe49b69c1, 0xefbe4786, 0x0fc19dc6, 0x240ca1cc, 0x2de92c6f, 0x4a7484aa, 0x5cb0a9dc, 0x76f988da],
    [0x983e5152, 0xa831c66d, 0xb00327c8, 0xbf597fc7, 0xc6e00bf3, 0xd5a79147, 0x06ca6351, 0x14292967],
    [0x27b70a85, 0x2e1b2138, 0x4d2c6dfc, 0x53380d13, 0x650a7354, 0x766a0abb, 0x81c2c92e, 0x92722c85],
    [0xa2bfe8a1, 0xa81a664b, 0xc24b8b70, 0xc76c51a3, 0xd192e819, 0xd6990624, 0xf40e3585, 0x106aa070],
    [0x19a4c116, 0x1e376c08, 0x2748774c, 0x34b0bcb5, 0x391c0cb3, 0x4ed8aa4a, 0x5b9cca4f, 0x682e6ff3],
    [0x748f82ee, 0x78a5636f, 0x84c87814, 0x8cc70208, 0x90befffa, 0xa4506ceb, 0xbef9a3f7, 0xc67178f2]
  ]

  // ---------------------------------------------------------------- functions of section 4.1.2

  function Ch(x: bv32, y: bv32, z: bv32): bv32 {
    (x & y) ^ (!x & z)
  }

  function Maj(x: bv32, y: bv32, z: bv32): bv32 {
    (x & y) ^ (x & z) ^ (y & z)
  }

  /** Section 3.2. */
  function Rotr(x: bv32, n: bv6): bv32
    requires 0 < n < 32
  {
    (x >> n) | (x << (32 - n))
  }

  function Shr(x: bv32, n: bv6): bv32
    requires n < 32
  {
    x >> n
  }

  function Xor3(x: bv32, y: bv32, z: bv32): bv32 {
    x ^ y ^ z
  }

  function BigSigma0(x: bv32): bv32 {
    Xor3(Rotr(x, 2), Rotr(x, 13), Rotr(x, 22))
  }

  function BigSigma1(x: bv32): bv32 {
    Xor3(Rotr(x, 6), Rotr(x, 11), Rotr(x, 25))
  }

  function SmallSigma0(x: bv32): bv32 {
    Xor3(Rotr(x, 7), Rotr(x, 18), Shr(x, 3))
  }

  function SmallSigma1(x: bv32): bv32 {
    Xor3(Rotr(x, 17), Rotr(x, 19), Shr(x, 10))
  }

  // ---------------------------------------------------------------- section 6.2.2

  function Constant(t: nat): bv32
    requires t < 64
  {
    K[t / 8][t % 8] as bv32
  }

  function Initial(): Words {
    seq(8, i requires 0 <= i < 8 => H0[i] as bv32)
  }

  /** Four bytes, most significant first. */
  function Pack(b: Block, j: nat): bv32
    requires j < 16
  {
    ((b[4 * j] as bv32) << 24) | ((b[4 * j + 1] as bv32) << 16) | ((b[4 * j + 2] as bv32) << 8) | (b[4 * j + 3] as bv32)
  }

  /** Addition modulo 2^32. */
  function Plus(x: bv32, y: bv32): bv32 {
    x + y
  }

  function Scheduled(w2: bv32, w7: bv32, w15: bv32, w16: bv32): bv32 {
    Plus(Plus(Plus(SmallSigma1(w2), w7), SmallSigma0(w15)), w16)
  }

  /** The message schedule. */
  function W(b: Block, t: nat): bv32
    requires t < 64
  {
    if t < 16 then Pack(b, t) else Scheduled(W(b, t - 2), W(b, t - 7), W(b, t - 15), W(b, t - 16))
  }

  function T1(e: bv32, f: bv32, g: bv32, h: bv32, k: bv32, w: bv32): bv32 {
    Plus(Plus(Plus(Plus(h, BigSigma1(e)), Ch(e, f, g)), k), w)
  }

  function T2(a: bv32, b: bv32, c: bv32): bv32 {
    Plus(BigSigma0(a), Maj(a, b, c))
  }

  function Round(v: Words, k: bv32, w: bv32): Words {
    var t1, t2 := T1(v[4], v[5], v[6], v[7], k, w), T2(v[0], v[1], v[2]);
    [Plus(t1, t2), v[0], v[1], v[2], Plus(v[3], t1), v[4], v[5], v[6]]
  }

  function Rounds(h: Words, b: Block, t: nat): Words
    requires t <= 64
  {
    if t == 0 then h else Round(Rounds(h, b, t - 1), Constant(t - 1), W(b, t - 1))
  }

  function Sum(h: Words, v: Words): Words {
    seq(8, i requires 0 <= i < 8 => Plus(h[i], v[i]))
  }

  function Compress(h: Words, b: Block): Words {
    Sum(h, Rounds(h, b, 64))
  }

  /** The first n blocks of the data. */
  function CompressAll(h: Words, data: Bytes, n: nat): Words
    requires 64 * n <= |data|
  {
    if n == 0 then h else Compress(CompressAll(h, data, n - 1), data[64 * (n - 1)..64 * n])
  }

  // ---------------------------------------------------------------- section 5.1.1

  /** How many zero bytes follow the byte 0x80: the fewest that make the rest a whole block. */
  function ZeroCount(length: nat): (k: nat)
    ensures (length + 1 + k + 8) % 64 == 0 && k < 64
  {
    if length % 64 <= 55 then 55 - length % 64 else 119 - length % 64
  }

  function Padded(m: Bytes): (p: Bytes)
    ensures |p| % 64 == 0
  {
    m + [0x80] + Zeros(ZeroCount(|m|)) + BigEndian64(8 * |m|)
  }

  function WordBytes(x: bv32): Bytes {
    [(x >> 24) as bv8, ((x >> 16) & 0xff) as bv8, ((x >> 8) & 0xff) as bv8, (x & 0xff) as bv8]
  }

  /** The digest of a hash value: its words, most significant byte first. */
  function Output(h: Words): Bytes {
    WordBytes(h[0]) + WordBytes(h[1]) + WordBytes(h[2]) + WordBytes(h[3])
    + WordBytes(h[4]) + WordBytes(h[5]) + WordBytes(h[6]) + WordBytes(h[7])
  }

  function Digest(m: Bytes): Bytes {
    Output(CompressAll(Initial(), Padded(m), |Padded(m)| / 64))
  }
}
