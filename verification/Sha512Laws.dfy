/** The functions of SHA-512 in the terms of FIPS 180-2: bit by bit, byte by byte, and as recurrences. */
module Sha512Laws {
  import opened HashBytes
  import opened HashRoots
  import opened Sha512
  import opened Sha512Code

  // ---------------------------------------------------------------- bits

  /** Bit i of a word, the least significant one being bit 0. */
  predicate Bit(x: bv64, i: bv7)
    requires i < 64
  {
    (x >> i) & 1 == 1
  }

  /** The bit n places to the left of bit i, round the word. */
  predicate Turned(x: bv64, i: bv7, n: bv7)
    requires i < 64 && n < 64
  {
    Bit(x, if i + n < 64 then i + n else i + n - 64)
  }

  /** The same with zeros coming in at the left end. */
  predicate Moved(x: bv64, i: bv7, n: bv7)
    requires i < 64 && n < 64
  {
    i + n < 64 && Bit(x, i + n)
  }

  /** The sum of three bits modulo 2. */
  predicate Odd(a: bool, b: bool, c: bool) {
    a == (b == c)
  }

  /** `Ch` takes the bit of y where x has a one and that of z where it has none. */
  lemma ChBits(x: bv64, y: bv64, z: bv64, i: bv7)
    requires i < 64
    ensures Bit(Ch(x, y, z), i) == if Bit(x, i) then Bit(y, i) else Bit(z, i)
  {
    ChoiceBits(x, y, z, i);
    hide Bit;
  }

  /** `Maj` has the bit that most of the three have. */
  lemma MajBits(x: bv64, y: bv64, z: bv64, i: bv7)
    requires i < 64
    ensures Bit(Maj(x, y, z), i) == if Bit(x, i) == Bit(y, i) then Bit(x, i) else Bit(z, i)
  {
    MajorityBits(x, y, z, i);
    hide Bit;
  }

  lemma ChoiceBits(x: bv64, y: bv64, z: bv64, i: bv7)
    requires i < 64
    ensures Bit((x & y) ^ (!x & z), i) == if Bit(x, i) then Bit(y, i) else Bit(z, i)
  {
  }

  lemma MajorityBits(x: bv64, y: bv64, z: bv64, i: bv7)
    requires i < 64
    ensures Bit((x & y) ^ (x & z) ^ (y & z), i) == if Bit(x, i) == Bit(y, i) then Bit(x, i) else Bit(z, i)
  {
  }

  lemma XorBits(x: bv64, y: bv64, z: bv64, i: bv7)
    requires i < 64
    ensures Bit(x ^ y ^ z, i) == Odd(Bit(x, i), Bit(y, i), Bit(z, i))
  {
  }

  lemma SumBits(x: bv64, y: bv64, z: bv64, i: bv7)
    requires i < 64
    ensures Bit(Xor3(x, y, z), i) == Odd(Bit(x, i), Bit(y, i), Bit(z, i))
  {
    XorBits(x, y, z, i);
    hide Bit;
  }

  // One lemma for each of the twelve shifts: the solver follows a shift by a constant far more cheaply.

  lemma Turn28(x: bv64, i: bv7)
    requires i < 64
    ensures Bit(Rotr(x, 28), i) == Turned(x, i, 28)
  {
  }

  lemma Turn34(x: bv64, i: bv7)
    requires i < 64
    ensures Bit(Rotr(x, 34), i) == Turned(x, i, 34)
  {
  }

  lemma Turn39(x: bv64, i: bv7)
    requires i < 64
    ensures Bit(Rotr(x, 39), i) == Turned(x, i, 39)
  {
  }

  lemma Turn14(x: bv64, i: bv7)
    requires i < 64
    ensures Bit(Rotr(x, 14), i) == Turned(x, i, 14)
  {
  }

  lemma Turn18(x: bv64, i: bv7)
    requires i < 64
    ensures Bit(Rotr(x, 18), i) == Turned(x, i, 18)
  {
  }

  lemma Turn41(x: bv64, i: bv7)
    requires i < 64
    ensures Bit(Rotr(x, 41), i) == Turned(x, i, 41)
  {
  }

  lemma Turn1(x: bv64, i: bv7)
    requires i < 64
    ensures Bit(Rotr(x, 1), i) == Turned(x, i, 1)
  {
  }

  lemma Turn8(x: bv64, i: bv7)
    requires i < 64
    ensures Bit(Rotr(x, 8), i) == Turned(x, i, 8)
  {
  }

  lemma Turn19(x: bv64, i: bv7)
    requires i < 64
    ensures Bit(Rotr(x, 19), i) == Turned(x, i, 19)
  {
  }

  lemma Turn61(x: bv64, i: bv7)
    requires i < 64
    ensures Bit(Rotr(x, 61), i) == Turned(x, i, 61)
  {
  }

  lemma Move7(x: bv64, i: bv7)
    requires i < 64
    ensures Bit(Shr(x, 7), i) == Moved(x, i, 7)
  {
  }

  lemma Move6(x: bv64, i: bv7)
    requires i < 64
    ensures Bit(Shr(x, 6), i) == Moved(x, i, 6)
  {
  }

  /** Section 4.1.3: every bit is the sum modulo 2 of the bits at three places. */
  lemma BigSigma0Bits(x: bv64, i: bv7)
    requires i < 64
    ensures Bit(BigSigma0(x), i) == Odd(Turned(x, i, 28), Turned(x, i, 34), Turned(x, i, 39))
  {
    hide Bit, Turned, Rotr, Xor3;
    Turn28(x, i);
    Turn34(x, i);
    Turn39(x, i);
    SumBits(Rotr(x, 28), Rotr(x, 34), Rotr(x, 39), i);
  }

  lemma BigSigma1Bits(x: bv64, i: bv7)
    requires i < 64
    ensures Bit(BigSigma1(x), i) == Odd(Turned(x, i, 14), Turned(x, i, 18), Turned(x, i, 41))
  {
    hide Bit, Turned, Rotr, Xor3;
    Turn14(x, i);
    Turn18(x, i);
    Turn41(x, i);
    SumBits(Rotr(x, 14), Rotr(x, 18), Rotr(x, 41), i);
  }

  lemma SmallSigma0Bits(x: bv64, i: bv7)
    requires i < 64
    ensures Bit(SmallSigma0(x), i) == Odd(Turned(x, i, 1), Turned(x, i, 8), Moved(x, i, 7))
  {
    hide Bit, Turned, Moved, Rotr, Shr, Xor3;
    Turn1(x, i);
    Turn8(x, i);
    Move7(x, i);
    SumBits(Rotr(x, 1), Rotr(x, 8), Shr(x, 7), i);
  }

  lemma SmallSigma1Bits(x: bv64, i: bv7)
    requires i < 64
    ensures Bit(SmallSigma1(x), i) == Odd(Turned(x, i, 19), Turned(x, i, 61), Moved(x, i, 6))
  {
    hide Bit, Turned, Moved, Rotr, Shr, Xor3;
    Turn19(x, i);
    Turn61(x, i);
    Move6(x, i);
    SumBits(Rotr(x, 19), Rotr(x, 61), Shr(x, 6), i);
  }

  // ---------------------------------------------------------------- bytes

  /** The number eight bytes write to the base 256, most significant first. */
  function Number(a: bv8, b: bv8, c: bv8, d: bv8, e: bv8, f: bv8, g: bv8, h: bv8): bv64 {
    0x100_0000_0000_0000 * (a as bv64) + 0x1_0000_0000_0000 * (b as bv64) + 0x100_0000_0000 * (c as bv64)
    + 0x1_0000_0000 * (d as bv64) + 0x100_0000 * (e as bv64) + 0x1_0000 * (f as bv64) + 0x100 * (g as bv64) + (h as bv64)
  }

  /** Word i of a byte string. */
  function WordIn(d: Bytes, i: nat): bv64
    requires 8 * i + 8 <= |d|
  {
    Number(d[8 * i], d[8 * i + 1], d[8 * i + 2], d[8 * i + 3], d[8 * i + 4], d[8 * i + 5], d[8 * i + 6], d[8 * i + 7])
  }

  lemma PackIsNumber(b: Block, j: nat)
    requires j < 16
    ensures Pack(b, j) == WordIn(b, j)
  {
    PackBytes(b[8 * j], b[8 * j + 1], b[8 * j + 2], b[8 * j + 3], b[8 * j + 4], b[8 * j + 5], b[8 * j + 6], b[8 * j + 7]);
  }

  lemma PackBytes(a: bv8, b: bv8, c: bv8, d: bv8, e: bv8, f: bv8, g: bv8, h: bv8)
    ensures ((a as bv64) << 56) | ((b as bv64) << 48) | ((c as bv64) << 40) | ((d as bv64) << 32)
      | ((e as bv64) << 24) | ((f as bv64) << 16) | ((g as bv64) << 8) | (h as bv64) == Number(a, b, c, d, e, f, g, h)
  {
  }

  lemma BytesAreNumber(x: bv64)
    ensures |WordBytes(x)| == 8
    ensures WordIn(WordBytes(x), 0) == x
  {
  }

  // ---------------------------------------------------------------- constants

  /** Sections 4.2.3 and 5.3.4: the first 64 bits of the fractional parts of roots of primes. */
  lemma ConstantIsRoot(i: nat, j: nat)
    requires i < 10 && j < 8
    ensures CubeRoot(PrimeAt(i, j), WRAP64, WholeCube(PrimeAt(i, j)) * WRAP64 + K[i][j])
    ensures Prime(PrimeAt(i, j))
  {
    ListedPrime(i, j);
    if i < 5 { EarlyConstant(i, j); } else { LateConstant(i, j); }
    hide Prime, CubeRoot;
  }

  lemma EarlyConstant(i: nat, j: nat)
    requires i < 5 && j < 8
    ensures CubeRoot(PrimeAt(i, j), WRAP64, WholeCube(PrimeAt(i, j)) * WRAP64 + K[i][j])
  {
  }

  lemma LateConstant(i: nat, j: nat)
    requires 5 <= i < 10 && j < 8
    ensures CubeRoot(PrimeAt(i, j), WRAP64, WholeCube(PrimeAt(i, j)) * WRAP64 + K[i][j])
  {
  }

  lemma InitialIsRoot(i: nat)
    requires i < 8
    ensures SquareRoot(PrimeAt(0, i), WRAP64, WholeSquare(PrimeAt(0, i)) * WRAP64 + H0[i])
    ensures Prime(PrimeAt(0, i))
  {
    ListedPrime(0, i);
    hide Prime;
  }

  // ---------------------------------------------------------------- one block

  /** Addition counts on from x, and starts again at zero behind the largest word. */
  lemma PlusCounts(x: bv64, y: bv64)
    ensures Plus(x, 0) == x && Plus(x, y + 1) == Plus(x, y) + 1 && Plus(0xffff_ffff_ffff_ffff, 1) == 0
  {
  }

  /** The schedule of section 6.3.2, as a recurrence. */
  ghost predicate ScheduleOf(w: seq<bv64>, b: Block) {
    |w| == 80
    && (forall t :: 0 <= t < 16 ==> w[t] == WordIn(b, t))
    && (forall t :: 16 <= t < 80 ==>
          w[t] == Plus(Plus(Plus(SmallSigma1(w[t - 2]), w[t - 7]), SmallSigma0(w[t - 15])), w[t - 16]))
  }

  /** What round t adds to register h. */
  function FirstSum(e: seq<bv64>, w: seq<bv64>, t: nat): bv64
    requires t < 80 && |e| == 84 && |w| == 80
  {
    Plus(Plus(Plus(Plus(e[t], BigSigma1(e[t + 3])), Ch(e[t + 3], e[t + 2], e[t + 1])), K[t / 8][t % 8] as bv64), w[t])
  }

  function SecondSum(a: seq<bv64>, t: nat): bv64
    requires t < 80 && |a| == 84
  {
    Plus(BigSigma0(a[t + 3]), Maj(a[t + 3], a[t + 2], a[t + 1]))
  }

  /**
   * The 80 rounds as two recurrences: registers b, c and d hold what a held one, two and three rounds before, and
   * registers f, g and h what e held. The first four entries are the registers at the start, last first.
   */
  ghost predicate RegistersOf(a: seq<bv64>, e: seq<bv64>, w: seq<bv64>, h: Words) {
    |a| == 84 && |e| == 84 && |w| == 80
    && (forall k :: 0 <= k < 4 ==> a[k] == h[3 - k] && e[k] == h[7 - k])
    && (forall t :: 0 <= t < 80 ==>
          a[t + 4] == Plus(FirstSum(e, w, t), SecondSum(a, t)) && e[t + 4] == Plus(a[t], FirstSum(e, w, t)))
  }

  /** One block: section 6.3.2. */
  ghost predicate Compresses(h: Words, b: Block, next: Words) {
    exists a, e, w :: ScheduleOf(w, b) && RegistersOf(a, e, w, h) && Added(h, a, e, next)
  }

  /** The registers at the end are added to the hash value. */
  ghost predicate Added(h: Words, a: seq<bv64>, e: seq<bv64>, next: Words) {
    |a| == 84 && |e| == 84
    && (forall k :: 0 <= k < 4 ==> next[k] == Plus(h[k], a[83 - k]))
    && (forall k :: 4 <= k < 8 ==> next[k] == Plus(h[k], e[87 - k]))
  }

  function WordsOf(b: Block): (w: seq<bv64>)
    ensures |w| == 80 && forall t :: 0 <= t < 80 ==> w[t] == W(b, t)
  {
    seq(80, t requires 0 <= t < 80 => W(b, t))
  }

  lemma WordAt(b: Block, t: nat)
    requires 16 <= t < 80
    ensures W(b, t) == Plus(Plus(Plus(SmallSigma1(W(b, t - 2)), W(b, t - 7)), SmallSigma0(W(b, t - 15))), W(b, t - 16))
  {
    hide Pack, Plus, SmallSigma0, SmallSigma1;
  }

  lemma WordsFollow(b: Block)
    ensures ScheduleOf(WordsOf(b), b)
  {
    hide WordsOf, Pack, Scheduled, Number, Plus, SmallSigma0, SmallSigma1;
    var w := WordsOf(b);
    forall t | 0 <= t < 16 ensures w[t] == WordIn(b, t) {
      PackIsNumber(b, t);
    }
    hide W;
    forall t | 16 <= t < 80
      ensures w[t] == Plus(Plus(Plus(SmallSigma1(w[t - 2]), w[t - 7]), SmallSigma0(w[t - 15])), w[t - 16])
    {
      WordAt(b, t);
    }
  }

  /** Register a, and before the first round those behind it. */
  function RegisterA(h: Words, b: Block, k: nat): bv64
    requires k < 84
  {
    if k < 4 then h[3 - k] else Rounds(h, b, k - 3)[0]
  }

  function RegisterE(h: Words, b: Block, k: nat): bv64
    requires k < 84
  {
    if k < 4 then h[7 - k] else Rounds(h, b, k - 3)[4]
  }

  /** One round, register by register. */
  lemma RoundMoves(v: Words, k: bv64, w: bv64)
    ensures var v', t1 := Round(v, k, w), T1(v[4], v[5], v[6], v[7], k, w);
      && v'[0] == Plus(t1, T2(v[0], v[1], v[2])) && v'[1] == v[0] && v'[2] == v[1] && v'[3] == v[2]
      && v'[4] == Plus(v[3], t1) && v'[5] == v[4] && v'[6] == v[5] && v'[7] == v[6]
  {
    hide T1, T2, Plus;
  }

  lemma RoundsNext(h: Words, b: Block, t: nat)
    requires t < 80
    ensures Rounds(h, b, t + 1) == Round(Rounds(h, b, t), Constant(t), W(b, t))
    ensures RegisterA(h, b, t + 4) == Rounds(h, b, t + 1)[0] && RegisterE(h, b, t + 4) == Rounds(h, b, t + 1)[4]
  {
    hide Round, W, Constant;
  }

  /** The eight registers after t rounds. */
  lemma {:induction false} RegistersAfter(h: Words, b: Block, t: nat)
    requires t <= 80
    ensures var v := Rounds(h, b, t);
      && v[0] == RegisterA(h, b, t + 3) && v[1] == RegisterA(h, b, t + 2)
      && v[2] == RegisterA(h, b, t + 1) && v[3] == RegisterA(h, b, t)
      && v[4] == RegisterE(h, b, t + 3) && v[5] == RegisterE(h, b, t + 2)
      && v[6] == RegisterE(h, b, t + 1) && v[7] == RegisterE(h, b, t)
  {
    if t > 0 {
      hide Rounds, Round, T1, T2, Plus, W, Constant, RegisterA, RegisterE;
      RegistersAfter(h, b, t - 1);
      RoundsNext(h, b, t - 1);
      RoundMoves(Rounds(h, b, t - 1), Constant(t - 1), W(b, t - 1));
    }
  }

  /** The two recurrences, for the registers of the model. */
  lemma RegistersNext(h: Words, b: Block, t: nat)
    requires t < 80
    ensures var t1 := T1(RegisterE(h, b, t + 3), RegisterE(h, b, t + 2), RegisterE(h, b, t + 1), RegisterE(h, b, t),
                         Constant(t), W(b, t));
      && RegisterE(h, b, t + 4) == Plus(RegisterA(h, b, t), t1)
      && RegisterA(h, b, t + 4)
         == Plus(t1, T2(RegisterA(h, b, t + 3), RegisterA(h, b, t + 2), RegisterA(h, b, t + 1)))
  {
    hide Rounds, Round, T1, T2, Plus, W, Constant, RegisterA, RegisterE;
    RegistersAfter(h, b, t);
    RoundsNext(h, b, t);
    RoundMoves(Rounds(h, b, t), Constant(t), W(b, t));
  }

  lemma SumsAre(a: seq<bv64>, e: seq<bv64>, w: seq<bv64>, t: nat)
    requires t < 80 && |a| == 84 && |e| == 84 && |w| == 80
    ensures T1(e[t + 3], e[t + 2], e[t + 1], e[t], Constant(t), w[t]) == FirstSum(e, w, t)
    ensures T2(a[t + 3], a[t + 2], a[t + 1]) == SecondSum(a, t)
  {
    hide Plus, BigSigma0, BigSigma1, Ch, Maj;
  }

  lemma RegistersFollow(h: Words, b: Block, a: seq<bv64>, e: seq<bv64>, w: seq<bv64>)
    requires |a| == 84 && |e| == 84 && w == WordsOf(b)
    requires forall k :: 0 <= k < 84 ==> a[k] == RegisterA(h, b, k)
    requires forall k :: 0 <= k < 84 ==> e[k] == RegisterE(h, b, k)
    ensures RegistersOf(a, e, w, h)
  {
    hide Rounds;
    assert forall k :: 0 <= k < 4 ==> a[k] == h[3 - k] && e[k] == h[7 - k];
    hide T1, T2, Plus, W, Constant, RegisterA, RegisterE, FirstSum, SecondSum;
    forall t | 0 <= t < 80
      ensures a[t + 4] == Plus(FirstSum(e, w, t), SecondSum(a, t)) && e[t + 4] == Plus(a[t], FirstSum(e, w, t))
    {
      RegistersNext(h, b, t);
      SumsAre(a, e, w, t);
    }
  }

  lemma SumWord(h: Words, v: Words, k: nat)
    requires k < 8
    ensures Sum(h, v)[k] == Plus(h[k], v[k])
  {
    hide Plus;
  }

  lemma LastRegister(h: Words, b: Block, k: nat)
    requires k < 8
    ensures Rounds(h, b, 80)[k] == if k < 4 then RegisterA(h, b, 83 - k) else RegisterE(h, b, 87 - k)
  {
    hide Rounds, RegisterA, RegisterE;
    RegistersAfter(h, b, 80);
    if k == 0 || k == 1 {
    } else if k == 2 || k == 3 {
    } else if k == 4 || k == 5 {
    } else {
      assert k == 6 || k == 7;
    }
  }

  lemma CompressAt(h: Words, b: Block, k: nat)
    requires k < 8
    ensures Compress(h, b)[k] == Plus(h[k], if k < 4 then RegisterA(h, b, 83 - k) else RegisterE(h, b, 87 - k))
  {
    hide Rounds, Plus, RegisterA, RegisterE, Sum;
    SumWord(h, Rounds(h, b, 80), k);
    LastRegister(h, b, k);
  }

  /** `Compress` is section 6.3.2 for every hash value and block. */
  lemma CompressIs(h: Words, b: Block)
    ensures Compresses(h, b, Compress(h, b))
  {
    hide Compress, RegisterA, RegisterE, Plus, ScheduleOf, RegistersOf, WordsOf;
    var a := seq(84, k requires 0 <= k < 84 => RegisterA(h, b, k));
    var e := seq(84, k requires 0 <= k < 84 => RegisterE(h, b, k));
    WordsFollow(b);
    RegistersFollow(h, b, a, e, WordsOf(b));
    forall k: nat | k < 8
      ensures Compress(h, b)[k] == Plus(h[k], if k < 4 then a[83 - k] else e[87 - k])
    {
      CompressAt(h, b, k);
    }
    assert Added(h, a, e, Compress(h, b));
  }

  // ---------------------------------------------------------------- messages

  /** Section 5.1.2: the message, one bit, as few zeros as fill a block, and the length in bits. */
  ghost predicate PaddingOf(p: Bytes, m: Bytes) {
    && |p| % 128 == 0 && |m| + 17 <= |p| < |m| + 17 + 128 && p[..|m|] == m && p[|m|] == 0x80
    && (forall k :: |m| < k < |p| - 16 ==> p[k] == 0)
    && Value(p[|p| - 16..]) == 8 * |m| % (WRAP64 * WRAP64)
  }

  lemma BigEndian128Value(n: nat)
    ensures Value(BigEndian128(n)) == n % (WRAP64 * WRAP64)
  {
    hide Value, BigEndian64;
    BigEndian64Value(n / WRAP64);
    BigEndian64Value(n);
    ValueOfEight(BigEndian64(n / WRAP64), BigEndian64(n));
    var a := n / WRAP64;
    assert n == WRAP64 * a + n % WRAP64 && a == WRAP64 * (a / WRAP64) + a % WRAP64;
  }

  lemma ValueOfEight(a: Bytes, b: Bytes)
    requires |b| == 8
    ensures Value(a + b) == WRAP64 * Value(a) + Value(b)
  {
    hide Value;
    var high, low := b[..4], b[4..];
    assert b == high + low && a + b == a + high + low;
    ValueParts(a + high, low);
    ValueParts(a, high);
    ValueParts(high, low);
  }

  lemma PaddedIs(m: Bytes)
    ensures PaddingOf(Padded(m), m)
  {
    hide BigEndian128, Value;
    var p, n := Padded(m), BigEndian128(8 * |m|);
    BigEndian128Value(8 * |m|);
    assert p[|p| - 16..] == n;
    assert p == m + ([0x80] + Zeros(ZeroCount(|m|)) + n);
  }

  /** One hash value after the other, from the first, one for each block. */
  ghost predicate HashesOf(hs: seq<Words>, p: Bytes)
    requires |p| % 128 == 0
  {
    |hs| == |p| / 128 + 1
    && (forall i :: 0 <= i < 8 ==> hs[0][i] == H0[i] as bv64)
    && (forall i {:trigger hs[i]} :: 0 <= i < |p| / 128 ==> Compresses(hs[i], p[128 * i..128 * i + 128], hs[i + 1]))
  }

  /** What FIPS 180-2 says the digest d of a message is. */
  ghost predicate DigestOf(d: Bytes, m: Bytes) {
    exists p, hs :: PaddingOf(p, m) && HashesOf(hs, p) && Writes(d, hs[|hs| - 1])
  }

  /** The words of a hash value, most significant byte first. */
  ghost predicate Writes(d: Bytes, h: Words) {
    |d| == 64 && forall i: nat :: i < 8 ==> WordIn(d, i) == h[i]
  }

  lemma WordAppended(a: Bytes, h: bv64, i: nat)
    requires |a| == 8 * i
    ensures |a + WordBytes(h)| == 8 * i + 8 && WordIn(a + WordBytes(h), i) == h
  {
    BytesAreNumber(h);
    hide WordBytes, Number;
    var d, b := a + WordBytes(h), WordBytes(h);
    assert forall k :: 0 <= k < 8 ==> d[8 * i + k] == b[k];
  }

  lemma WordKept(a: Bytes, b: Bytes, i: nat)
    requires 8 * i + 8 <= |a|
    ensures WordIn(a + b, i) == WordIn(a, i)
  {
    hide Number;
  }

  lemma {:induction false} OutputAt(h: Words, n: nat)
    requires n <= 8
    ensures |OutputTo(h, n)| == 8 * n && forall i: nat :: i < n ==> WordIn(OutputTo(h, n), i) == h[i]
  {
    if n > 0 {
      hide WordBytes, WordIn;
      var before := OutputTo(h, n - 1);
      OutputAt(h, n - 1);
      WordAppended(before, h[n - 1], n - 1);
      forall i: nat | i < n - 1 ensures WordIn(before + WordBytes(h[n - 1]), i) == h[i] {
        WordKept(before, WordBytes(h[n - 1]), i);
      }
    }
  }

  lemma OutputIs(h: Words)
    ensures Writes(Output(h), h)
  {
    hide OutputTo, Output, WordIn;
    OutputWhole(h);
    OutputAt(h, 8);
  }

  /** The digest the code computes is the one of the standard. */
  lemma DigestIs(m: Bytes)
    ensures DigestOf(Digest(m), m)
  {
    var p := Padded(m);
    PaddedIs(m);
    hide Compress, Compresses, Padded, PaddingOf, Writes, Output;
    var hs := HashesAre(p);
    OutputIs(hs[|hs| - 1]);
  }

  lemma HashesAre(p: Bytes) returns (hs: seq<Words>)
    requires |p| % 128 == 0
    ensures HashesOf(hs, p) && hs[|hs| - 1] == CompressAll(Initial(), p, |p| / 128)
  {
    hide Compress, Compresses;
    hs := seq(|p| / 128 + 1, i requires 0 <= i <= |p| / 128 => CompressAll(Initial(), p, i));
    forall i | 0 <= i < |p| / 128
      ensures Compresses(hs[i], p[128 * i..128 * i + 128], hs[i + 1])
    {
      CompressIs(hs[i], p[128 * i..128 * i + 128]);
    }
  }
}
