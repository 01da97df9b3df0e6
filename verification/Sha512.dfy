/** SHA-512 as FIPS 180-2 defines it; its section 6.3.2 is section 6.4.2 of FIPS 180-4. */
module Sha512 {
  import opened HashBytes

  type uint64 = n: int | 0 <= n < 0x1_0000_0000_0000_0000

  /** The eight words of a hash value, or the working variables a to h. */
  type Words = h: seq<bv64> | |h| == 8 witness seq(8, _ => 0)

  type Block = b: seq<bv8> | |b| == 128 witness seq(128, _ => 0)

  /** Section 5.3.4 of FIPS 180-2. */
  const H0: seq<uint64> := [
    0x6a09e667f3bcc908, 0xbb67ae8584caa73b, 0x3c6ef372fe94f82b, 0xa54ff53a5f1d36f1,
    0x510e527fade682d1, 0x9b05688c2b3e6c1f, 0x1f83d9abfb41bd6b, 0x5be0cd19137e2179
  ]

  /** Section 4.2.3. */
  const K: seq<seq<uint64>> := [
    [0x428a2f98d728ae22, 0x7137449123ef65cd, 0xb5c0fbcfec4d3b2f, 0xe9b5dba58189dbbc,
     0x3956c25bf348b538, 0x59f111f1b605d019, 0x923f82a4af194f9b, 0xab1c5ed5da6d8118],
    [0xd807aa98a3030242, 0x12835b0145706fbe, 0x243185be4ee4b28c, 0x550c7dc3d5ffb4e2,
     0x72be5d74f27b896f, 0x80deb1fe3b1696b1, 0x9bdc06a725c71235, 0xc19bf174cf692694],
    [0xe49b69c19ef14ad2, 0xefbe4786384f25e3, 0x0fc19dc68b8cd5b5, 0x240ca1cc77ac9c65,
     0x2de92c6f592b0275, 0x4a7484aa6ea6e483, 0x5cb0a9dcbd41fbd4, 0x76f988da831153b5],
    [0x983e5152ee66dfab, 0xa831c66d2db43210, 0xb00327c898fb213f, 0xbf597fc7beef0ee4,
     0xc6e00bf33da88fc2, 0xd5a79147930aa725, 0x06ca6351e003826f, 0x142929670a0e6e70],
    [0x27b70a8546d22ffc, 0x2e1b21385c26c926, 0x4d2c6dfc5ac42aed, 0x53380d139d95b3df,
     0x650a73548baf63de, 0x766a0abb3c77b2a8, 0x81c2c92e47edaee6, 0x92722c851482353b],
    [0xa2bfe8a14cf10364, 0xa81a664bbc423001, 0xc24b8b70d0f89791, 0xc76c51a30654be30,
     0xd192e819d6ef5218, 0xd69906245565a910, 0xf40e35855771202a, 0x106aa07032bbd1b8],
    [0x19a4c116b8d2d0c8, 0x1e376c085141ab53, 0x2748774cdf8eeb99, 0x34b0bcb5e19b48a8,
     0x391c0cb3c5c95a63, 0x4ed8aa4ae3418acb, 0x5b9cca4f7763e373, 0x682e6ff3d6b2b8a3],
    [0x748f82ee5defb2fc, 0x78a5636f43172f60, 0x84c87814a1f0ab72, 0x8cc702081a6439ec,
     0x90befffa23631e28, 0xa4506cebde82bde9, 0xbef9a3f7b2c67915, 0xc67178f2e372532b],
    [0xca273eceea26619c, 0xd186b8c721c0c207, 0xeada7dd6cde0eb1e, 0xf57d4f7fee6ed178,
     0x06f067aa72176fba, 0x0a637dc5a2c898a6, 0x113f9804bef90dae, 0x1b710b35131c471b],
    [0x28db77f523047d84, 0x32caab7b40c72493, 0x3c9ebe0a15c9bebc, 0x431d67c49c100d4c,
     0x4cc5d4becb3e42b6, 0x597f299cfc657e2a, 0x5fcb6fab3ad6faec, 0x6c44198c4a475817]
  ]

  // ---------------------------------------------------------------- functions of section 4.1.3

  function Ch(x: bv64, y: bv64, z: bv64): bv64 {
    (x & y) ^ (!x & z)
  }

  function Maj(x: bv64, y: bv64, z: bv64): bv64 {
    (x & y) ^ (x & z) ^ (y & z)
  }

  /** Section 3.2. */
  function Rotr(x: bv64, n: bv7): bv64
    requires 0 < n < 64
  {
    (x >> n) | (x << (64 - n))
  }

  function Shr(x: bv64, n: bv7): bv64
    requires n < 64
  {
    x >> n
  }

  function Xor3(x: bv64, y: bv64, z: bv64): bv64 {
    x ^ y ^ z
  }

  function BigSigma0(x: bv64): bv64 {
    Xor3(Rotr(x, 28), Rotr(x, 34), Rotr(x, 39))
  }

  function BigSigma1(x: bv64): bv64 {
    Xor3(Rotr(x, 14), Rotr(x, 18), Rotr(x, 41))
  }

  function SmallSigma0(x: bv64): bv64 {
    Xor3(Rotr(x, 1), Rotr(x, 8), Shr(x, 7))
  }

  function SmallSigma1(x: bv64): bv64 {
    Xor3(Rotr(x, 19), Rotr(x, 61), Shr(x, 6))
  }

  // ---------------------------------------------------------------- section 6.3.2

  function Constant(t: nat): bv64
    requires t < 80
  {
    K[t / 8][t % 8] as bv64
  }

  function Initial(): Words {
    seq(8, i requires 0 <= i < 8 => H0[i] as bv64)
  }

  /** Eight bytes, most significant first. */
  function Pack(b: Block, j: nat): bv64
    requires j < 16
  {
    ((b[8 * j] as bv64) << 56) | ((b[8 * j + 1] as bv64) << 48)
    | ((b[8 * j + 2] as bv64) << 40) | ((b[8 * j + 3] as bv64) << 32)
    | ((b[8 * j + 4] as bv64) << 24) | ((b[8 * j + 5] as bv64) << 16)
    | ((b[8 * j + 6] as bv64) << 8) | (b[8 * j + 7] as bv64)
  }

  /** Addition modulo 2^64. */
  function Plus(x: bv64, y: bv64): bv64 {
    x + y
  }

  function Scheduled(w2: bv64, w7: bv64, w15: bv64, w16: bv64): bv64 {
    Plus(Plus(Plus(SmallSigma1(w2), w7), SmallSigma0(w15)), w16)
  }

  /** The message schedule. */
  function W(b: Block, t: nat): bv64
    requires t < 80
  {
    if t < 16 then Pack(b, t) else Scheduled(W(b, t - 2), W(b, t - 7), W(b, t - 15), W(b, t - 16))
  }

  function T1(e: bv64, f: bv64, g: bv64, h: bv64, k: bv64, w: bv64): bv64 {
    Plus(Plus(Plus(Plus(h, BigSigma1(e)), Ch(e, f, g)), k), w)
  }

  function T2(a: bv64, b: bv64, c: bv64): bv64 {
    Plus(BigSigma0(a), Maj(a, b, c))
  }

  function Round(v: Words, k: bv64, w: bv64): Words {
    var t1, t2 := T1(v[4], v[5], v[6], v[7], k, w), T2(v[0], v[1], v[2]);
    [Plus(t1, t2), v[0], v[1], v[2], Plus(v[3], t1), v[4], v[5], v[6]]
  }

  function Rounds(h: Words, b: Block, t: nat): Words
    requires t <= 80
  {
    if t == 0 then h else Round(Rounds(h, b, t - 1), Constant(t - 1), W(b, t - 1))
  }

  function Sum(h: Words, v: Words): Words {
    seq(8, i requires 0 <= i < 8 => Plus(h[i], v[i]))
  }

  function Compress(h: Words, b: Block): Words {
    Sum(h, Rounds(h, b, 80))
  }

  /** The first n blocks of the data. */
  function CompressAll(h: Words, data: Bytes, n: nat): Words
    requires 128 * n <= |data|
  {
    if n == 0 then h else Compress(CompressAll(h, data, n - 1), data[128 * (n - 1)..128 * n])
  }

  // ---------------------------------------------------------------- section 5.1.2

  /** The 128-bit length field. */
  function BigEndian128(n: nat): (b: Bytes)
    ensures |b| == 16
  {
    BigEndian64(n / 0x1_0000_0000_0000_0000) + BigEndian64(n)
  }

  /** How many zero bytes follow the byte 0x80: the fewest that make the rest a whole block. */
  function ZeroCount(length: nat): (k: nat)
    ensures (length + 1 + k + 16) % 128 == 0 && k < 128
  {
    if length % 128 <= 111 then 111 - length % 128 else 239 - length % 128
  }

  function Padded(m: Bytes): (p: Bytes)
    ensures |p| % 128 == 0
  {
    m + [0x80] + Zeros(ZeroCount(|m|)) + BigEndian128(8 * |m|)
  }

  function WordBytes(x: bv64): Bytes {
    [(x >> 56) as bv8, ((x >> 48) & 0xff) as bv8, ((x >> 40) & 0xff) as bv8, ((x >> 32) & 0xff) as bv8,
     ((x >> 24) & 0xff) as bv8, ((x >> 16) & 0xff) as bv8, ((x >> 8) & 0xff) as bv8, (x & 0xff) as bv8]
  }

  /** The digest of a hash value: its words, most significant byte first. */
  function Output(h: Words): Bytes {
    WordBytes(h[0]) + WordBytes(h[1]) + WordBytes(h[2]) + WordBytes(h[3])
    + WordBytes(h[4]) + WordBytes(h[5]) + WordBytes(h[6]) + WordBytes(h[7])
  }

  function Digest(m: Bytes): Bytes {
    Output(CompressAll(Initial(), Padded(m), |Padded(m)| / 128))
  }
}
