/** The functions of SHA-256 in the terms of FIPS 180-2: bit by bit, byte by byte, and as recurrences. */
module Sha256Laws {
  import opened HashBytes
  import opened HashRoots
  import opened Sha256
  import opened Sha256Code

  // ---------------------------------------------------------------- bits

  /** Bit i of a word, the least significant one being bit 0. */
  predicate Bit(x: bv32, i: bv6)
    requires i < 32
  {
    (x >> i) & 1 == 1
  }

  /** The bit n places to the left of bit i, round the word. */
  predicate Turned(x: bv32, i: bv6, n: bv6)
    requires i < 32 && n < 32
  {
    Bit(x, if i + n < 32 then i + n else i + n - 32)
  }

  /** The same with zeros coming in at the left end. */
  predicate Moved(x: bv32, i: bv6, n: bv6)
    requires i < 32 && n < 32
  {
    i + n < 32 && Bit(x, i + n)
  }

  /** The sum of three bits modulo 2. */
  predicate Odd(a: bool, b: bool, c: bool) {
    a == (b == c)
  }

  /** `Ch` takes the bit of y where x has a one and that of z where it has none. */
  lemma ChBits(x: bv32, y: bv32, z: bv32, i: bv6)
    requires i < 32
    ensures Bit(Ch(x, y, z), i) == if Bit(x, i) then Bit(y, i) else Bit(z, i)
  {
    ChoiceBits(x, y, z, i);
    hide Bit;
  }

  /** `Maj` has the bit that most of the three have. */
  lemma MajBits(x: bv32, y: bv32, z: bv32, i: bv6)
    requires i < 32
    ensures Bit(Maj(x, y, z), i) == if Bit(x, i) == Bit(y, i) then Bit(x, i) else Bit(z, i)
  {
    MajorityBits(x, y, z, i);
    hide Bit;
  }

  lemma ChoiceBits(x: bv32, y: bv32, z: bv32, i: bv6)
    requires i < 32
    ensures Bit((x & y) ^ (!x & z), i) == if Bit(x, i) then Bit(y, i) else Bit(z, i)
  {
  }

  lemma MajorityBits(x: bv32, y: bv32, z: bv32, i: bv6)
    requires i < 32
    ensures Bit((x & y) ^ (x & z) ^ (y & z), i) == if Bit(x, i) == Bit(y, i) then Bit(x, i) else Bit(z, i)
  {
  }

  lemma XorBits(x: bv32, y: bv32, z: bv32, i: bv6)
    requires i < 32
    ensures Bit(x ^ y ^ z, i) == Odd(Bit(x, i), Bit(y, i), Bit(z, i))
  {
  }

  lemma SumBits(x: bv32, y: bv32, z: bv32, i: bv6)
    requires i < 32
    ensures Bit(Xor3(x, y, z), i) == Odd(Bit(x, i), Bit(y, i), Bit(z, i))
  {
    XorBits(x, y, z, i);
    hide Bit;
  }

  lemma InsideBits(x: bv32, i: bv6, n: bv6)
    requires i < 32 && 0 < n < 32 && i + n < 32
    ensures (((x >> n) | (x << (32 - n))) >> i) & 1 == (x >> (i + n)) & 1
  {
  }

  lemma RoundBits(x: bv32, i: bv6, n: bv6)
    requires i < 32 && 0 < n < 32 && i + n >= 32
    ensures (((x >> n) | (x << (32 - n))) >> i) & 1 == (x >> (i + n - 32)) & 1
  {
  }

  lemma RotrInside(x: bv32, i: bv6, n: bv6)
    requires i < 32 && 0 < n < 32 && i + n < 32
    ensures Bit(Rotr(x, n), i) == Bit(x, i + n)
  {
    InsideBits(x, i, n);
  }

  lemma RotrRound(x: bv32, i: bv6, n: bv6)
    requires i < 32 && 0 < n < 32 && i + n >= 32
    ensures Bit(Rotr(x, n), i) == Bit(x, i + n - 32)
  {
    RoundBits(x, i, n);
  }

  lemma RotrBits(x: bv32, i: bv6, n: bv6)
    requires i < 32 && 0 < n < 32
    ensures Bit(Rotr(x, n), i) == Turned(x, i, n)
  {
    hide Bit, Rotr;
    if i + n < 32 { RotrInside(x, i, n); } else { RotrRound(x, i, n); }
  }

  lemma ShrInside(x: bv32, i: bv6, n: bv6)
    requires i < 32 && 0 < n < 32 && i + n < 32
    ensures Bit(Shr(x, n), i) == Bit(x, i + n)
  {
  }

  lemma ShrRound(x: bv32, i: bv6, n: bv6)
    requires i < 32 && 0 < n < 32 && i + n >= 32
    ensures !Bit(Shr(x, n), i)
  {
  }

  lemma ShiftBits(x: bv32, i: bv6, n: bv6)
    requires i < 32 && 0 < n < 32
    ensures Bit(Shr(x, n), i) == Moved(x, i, n)
  {
    hide Bit, Shr;
    if i + n < 32 { ShrInside(x, i, n); } else { ShrRound(x, i, n); }
  }

  /** Section 4.1.2: every bit is the sum modulo 2 of the bits at three places. */
  lemma BigSigma0Bits(x: bv32, i: bv6)
    requires i < 32
    ensures Bit(BigSigma0(x), i) == Odd(Turned(x, i, 2), Turned(x, i, 13), Turned(x, i, 22))
  {
    hide Bit, Turned, Rotr, Xor3;
    RotrBits(x, i, 2);
    RotrBits(x, i, 13);
    RotrBits(x, i, 22);
    SumBits(Rotr(x, 2), Rotr(x, 13), Rotr(x, 22), i);
  }

  lemma BigSigma1Bits(x: bv32, i: bv6)
    requires i < 32
    ensures Bit(BigSigma1(x), i) == Odd(Turned(x, i, 6), Turned(x, i, 11), Turned(x, i, 25))
  {
    hide Bit, Turned, Rotr, Xor3;
    RotrBits(x, i, 6);
    RotrBits(x, i, 11);
    RotrBits(x, i, 25);
    SumBits(Rotr(x, 6), Rotr(x, 11), Rotr(x, 25), i);
  }

  lemma SmallSigma0Bits(x: bv32, i: bv6)
    requires i < 32
    ensures Bit(SmallSigma0(x), i) == Odd(Turned(x, i, 7), Turned(x, i, 18), Moved(x, i, 3))
  {
    hide Bit, Turned, Moved, Rotr, Shr, Xor3;
    RotrBits(x, i, 7);
    RotrBits(x, i, 18);
    ShiftBits(x, i, 3);
    SumBits(Rotr(x, 7), Rotr(x, 18), Shr(x, 3), i);
  }

  lemma SmallSigma1Bits(x: bv32, i: bv6)
    requires i < 32
    ensures Bit(SmallSigma1(x), i) == Odd(Turned(x, i, 17), Turned(x, i, 19), Moved(x, i, 10))
  {
    hide Bit, Turned, Moved, Rotr, Shr, Xor3;
    RotrBits(x, i, 17);
    RotrBits(x, i, 19);
    ShiftBits(x, i, 10);
    SumBits(Rotr(x, 17), Rotr(x, 19), Shr(x, 10), i);
  }

  // ---------------------------------------------------------------- bytes

  /** The number four bytes write to the base 256, most significant first. */
  function Number(a: bv8, b: bv8, c: bv8, d: bv8): bv32 {
    0x100_0000 * (a as bv32) + 0x1_0000 * (b as bv32) + 0x100 * (c as bv32) + (d as bv32)
  }

  /** Word i of a byte string. */
  function WordIn(d: Bytes, i: nat): bv32
    requires 4 * i + 4 <= |d|
  {
    Number(d[4 * i], d[4 * i + 1], d[4 * i + 2], d[4 * i + 3])
  }

  lemma PackIsNumber(b: Block, j: nat)
    requires j < 16
    ensures Pack(b, j) == WordIn(b, j)
  {
    PackBytes(b[4 * j], b[4 * j + 1], b[4 * j + 2], b[4 * j + 3]);
  }

  lemma PackBytes(a: bv8, b: bv8, c: bv8, d: bv8)
    ensures ((a as bv32) << 24) | ((b as bv32) << 16) | ((c as bv32) << 8) | (d as bv32) == Number(a, b, c, d)
  {
  }

  lemma BytesAreNumber(x: bv32)
    ensures |WordBytes(x)| == 4
    ensures WordIn(WordBytes(x), 0) == x
  {
  }

  // ---------------------------------------------------------------- constants

  /** Sections 4.2.2 and 5.3.2: the first 32 bits of the fractional parts of roots of primes. */
  lemma ConstantIsRoot(i: nat, j: nat)
    requires i < 8 && j < 8
    ensures CubeRoot(PrimeAt(i, j), WRAP, WholeCube(PrimeAt(i, j)) * WRAP + K[i][j])
    ensures Prime(PrimeAt(i, j))
  {
    ListedPrime(i, j);
    if i < 4 { EarlyConstant(i, j); } else { LateConstant(i, j); }
    hide Prime, CubeRoot;
  }

  lemma EarlyConstant(i: nat, j: nat)
    requires i < 4 && j < 8
    ensures CubeRoot(PrimeAt(i, j), WRAP, WholeCube(PrimeAt(i, j)) * WRAP + K[i][j])
  {
  }

  lemma LateConstant(i: nat, j: nat)
    requires 4 <= i < 8 && j < 8
    ensures CubeRoot(PrimeAt(i, j), WRAP, WholeCube(PrimeAt(i, j)) * WRAP + K[i][j])
  {
  }

  lemma InitialIsRoot(i: nat)
    requires i < 8
    ensures SquareRoot(PrimeAt(0, i), WRAP, WholeSquare(PrimeAt(0, i)) * WRAP + H0[i])
    ensures Prime(PrimeAt(0, i))
  {
    ListedPrime(0, i);
    hide Prime;
  }

  // ---------------------------------------------------------------- one block

  /** Addition counts on from x, and starts again at zero behind the largest word. */
  lemma PlusCounts(x: bv32, y: bv32)
    ensures Plus(x, 0) == x && Plus(x, y + 1) == Plus(x, y) + 1 && Plus(0xffff_ffff, 1) == 0
  {
  }

  /** The schedule of section 6.2.2, as a recurrence. */
  ghost predicate ScheduleOf(w: seq<bv32>, b: Block) {
    |w| == 64
    && (forall t :: 0 <= t < 16 ==> w[t] == WordIn(b, t))
    && (forall t :: 16 <= t < 64 ==>
          w[t] == Plus(Plus(Plus(SmallSigma1(w[t - 2]), w[t - 7]), SmallSigma0(w[t - 15])), w[t - 16]))
  }

  /** What round t adds to register h. */
  function FirstSum(e: seq<bv32>, w: seq<bv32>, t: nat): bv32
    requires t < 64 && |e| == 68 && |w| == 64
  {
    Plus(Plus(Plus(Plus(e[t], BigSigma1(e[t + 3])), Ch(e[t + 3], e[t + 2], e[t + 1])), K[t / 8][t % 8] as bv32), w[t])
  }

  function SecondSum(a: seq<bv32>, t: nat): bv32
    requires t < 64 && |a| == 68
  {
    Plus(BigSigma0(a[t + 3]), Maj(a[t + 3], a[t + 2], a[t + 1]))
  }

  /**
   * The 64 rounds as two recurrences: registers b, c and d hold what a held one, two and three rounds before, and
   * registers f, g and h what e held. The first four entries are the registers at the start, last first.
   */
  ghost predicate RegistersOf(a: seq<bv32>, e: seq<bv32>, w: seq<bv32>, h: Words) {
    |a| == 68 && |e| == 68 && |w| == 64
    && (forall k :: 0 <= k < 4 ==> a[k] == h[3 - k] && e[k] == h[7 - k])
    && (forall t :: 0 <= t < 64 ==>
          a[t + 4] == Plus(FirstSum(e, w, t), SecondSum(a, t)) && e[t + 4] == Plus(a[t], FirstSum(e, w, t)))
  }

  /** One block: section 6.2.2. */
  ghost predicate Compresses(h: Words, b: Block, next: Words) {
    exists a, e, w :: ScheduleOf(w, b) && RegistersOf(a, e, w, h) && Added(h, a, e, next)
  }

  /** The registers at the end are added to the hash value. */
  ghost predicate Added(h: Words, a: seq<bv32>, e: seq<bv32>, next: Words) {
    |a| == 68 && |e| == 68
    && (forall k :: 0 <= k < 4 ==> next[k] == Plus(h[k], a[67 - k]))
    && (forall k :: 4 <= k < 8 ==> next[k] == Plus(h[k], e[71 - k]))
  }

  function WordsOf(b: Block): (w: seq<bv32>)
    ensures |w| == 64 && forall t :: 0 <= t < 64 ==> w[t] == W(b, t)
  {
    seq(64, t requires 0 <= t < 64 => W(b, t))
  }

  lemma WordAt(b: Block, t: nat)
    requires 16 <= t < 64
    ensures W(b, t) == Plus(Plus(Plus(SmallSigma1(W(b, t - 2)), W(b, t - 7)), SmallSigma0(W(b, t - 15))), W(b, t - 16))
  {
    hide Pack, Plus, SmallSigma0, SmallSigma1;
  }

  lemma WordsFollow(b: Block)
    ensures ScheduleOf(WordsOf(b), b)
  {
    hide WordsOf, Pack, Scheduled, Number, Plus, SmallSigma0, SmallSigma1;
    var w := WordsOf(b);
    forall t | 0 <= t < 16 ensures w[t] == WordIn(b, t) {
      PackIsNumber(b, t);
    }
    hide W;
    forall t | 16 <= t < 64
      ensures w[t] == Plus(Plus(Plus(SmallSigma1(w[t - 2]), w[t - 7]), SmallSigma0(w[t - 15])), w[t - 16])
    {
      WordAt(b, t);
    }
  }

  /** Register a, and before the first round those behind it. */
  function RegisterA(h: Words, b: Block, k: nat): bv32
    requires k < 68
  {
    if k < 4 then h[3 - k] else Rounds(h, b, k - 3)[0]
  }

  function RegisterE(h: Words, b: Block, k: nat): bv32
    requires k < 68
  {
    if k < 4 then h[7 - k] else Rounds(h, b, k - 3)[4]
  }

  /** One round, register by register. */
  lemma RoundMoves(v: Words, k: bv32, w: bv32)
    ensures var v', t1 := Round(v, k, w), T1(v[4], v[5], v[6], v[7], k, w);
      && v'[0] == Plus(t1, T2(v[0], v[1], v[2])) && v'[1] == v[0] && v'[2] == v[1] && v'[3] == v[2]
      && v'[4] == Plus(v[3], t1) && v'[5] == v[4] && v'[6] == v[5] && v'[7] == v[6]
  {
    hide T1, T2, Plus;
  }

  lemma RoundsNext(h: Words, b: Block, t: nat)
    requires t < 64
    ensures Rounds(h, b, t + 1) == Round(Rounds(h, b, t), Constant(t), W(b, t))
    ensures RegisterA(h, b, t + 4) == Rounds(h, b, t + 1)[0] && RegisterE(h, b, t + 4) == Rounds(h, b, t + 1)[4]
  {
    hide Round, W, Constant;
  }

  /** The eight registers after t rounds. */
  lemma {:induction false} RegistersAfter(h: Words, b: Block, t: nat)
    requires t <= 64
    ensures var v := Rounds(h, b, t);
      && v[0] == RegisterA(h, b, t + 3) && v[1] == RegisterA(h, b, t + 2)
      && v[2] == RegisterA(h, b, t + 1) && v[3] == RegisterA(h, b, t)
      && v[4] == RegisterE(h, b, t + 3) && v[5] == RegisterE(h, b, t + 2)
      && v[6] == RegisterE(h, b, t + 1) && v[7] == RegisterE(h, b, t)
  {
    if t > 0 {
      hide Rounds, Round, T1, T2, Plus, W, Constant, RegisterA, RegisterE;
      RegistersAfter(h, b, t - 1);
      RoundsNext(h, b, t - 1);
      RoundMoves(Rounds(h, b, t - 1), Constant(t - 1), W(b, t - 1));
    }
  }

  /** The two recurrences, for the registers of the model. */
  lemma RegistersNext(h: Words, b: Block, t: nat)
    requires t < 64
    ensures var t1 := T1(RegisterE(h, b, t + 3), RegisterE(h, b, t + 2), RegisterE(h, b, t + 1), RegisterE(h, b, t),
                         Constant(t), W(b, t));
      && RegisterE(h, b, t + 4) == Plus(RegisterA(h, b, t), t1)
      && RegisterA(h, b, t + 4)
         == Plus(t1, T2(RegisterA(h, b, t + 3), RegisterA(h, b, t + 2), RegisterA(h, b, t + 1)))
  {
    hide Rounds, Round, T1, T2, Plus, W, Constant, RegisterA, RegisterE;
    RegistersAfter(h, b, t);
    RoundsNext(h, b, t);
    RoundMoves(Rounds(h, b, t), Constant(t), W(b, t));
  }

  lemma SumsAre(a: seq<bv32>, e: seq<bv32>, w: seq<bv32>, t: nat)
    requires t < 64 && |a| == 68 && |e| == 68 && |w| == 64
    ensures T1(e[t + 3], e[t + 2], e[t + 1], e[t], Constant(t), w[t]) == FirstSum(e, w, t)
    ensures T2(a[t + 3], a[t + 2], a[t + 1]) == SecondSum(a, t)
  {
    hide Plus, BigSigma0, BigSigma1, Ch, Maj;
  }

  lemma RegistersFollow(h: Words, b: Block, a: seq<bv32>, e: seq<bv32>, w: seq<bv32>)
    requires |a| == 68 && |e| == 68 && w == WordsOf(b)
    requires forall k :: 0 <= k < 68 ==> a[k] == RegisterA(h, b, k)
    requires forall k :: 0 <= k < 68 ==> e[k] == RegisterE(h, b, k)
    ensures RegistersOf(a, e, w, h)
  {
    hide Rounds;
    assert forall k :: 0 <= k < 4 ==> a[k] == h[3 - k] && e[k] == h[7 - k];
    hide T1, T2, Plus, W, Constant, RegisterA, RegisterE, FirstSum, SecondSum;
    forall t | 0 <= t < 64
      ensures a[t + 4] == Plus(FirstSum(e, w, t), SecondSum(a, t)) && e[t + 4] == Plus(a[t], FirstSum(e, w, t))
    {
      RegistersNext(h, b, t);
      SumsAre(a, e, w, t);
    }
  }

  lemma SumWord(h: Words, v: Words, k: nat)
    requires k < 8
    ensures Sum(h, v)[k] == Plus(h[k], v[k])
  {
    hide Plus;
  }

  lemma LastRegister(h: Words, b: Block, k: nat)
    requires k < 8
    ensures Rounds(h, b, 64)[k] == if k < 4 then RegisterA(h, b, 67 - k) else RegisterE(h, b, 71 - k)
  {
    hide Rounds, RegisterA, RegisterE;
    RegistersAfter(h, b, 64);
    if k == 0 || k == 1 {
    } else if k == 2 || k == 3 {
    } else if k == 4 || k == 5 {
    } else {
      assert k == 6 || k == 7;
    }
  }

  lemma CompressAt(h: Words, b: Block, k: nat)
    requires k < 8
    ensures Compress(h, b)[k] == Plus(h[k], if k < 4 then RegisterA(h, b, 67 - k) else RegisterE(h, b, 71 - k))
  {
    hide Rounds, Plus, RegisterA, RegisterE, Sum;
    SumWord(h, Rounds(h, b, 64), k);
    LastRegister(h, b, k);
  }

  /** `Compress` is section 6.2.2 for every hash value and block. */
  lemma CompressIs(h: Words, b: Block)
    ensures Compresses(h, b, Compress(h, b))
  {
    hide Compress, RegisterA, RegisterE, Plus, ScheduleOf, RegistersOf, WordsOf;
    var a := seq(68, k requires 0 <= k < 68 => RegisterA(h, b, k));
    var e := seq(68, k requires 0 <= k < 68 => RegisterE(h, b, k));
    WordsFollow(b);
    RegistersFollow(h, b, a, e, WordsOf(b));
    forall k: nat | k < 8
      ensures Compress(h, b)[k] == Plus(h[k], if k < 4 then a[67 - k] else e[71 - k])
    {
      CompressAt(h, b, k);
    }
    assert Added(h, a, e, Compress(h, b));
  }

  // ---------------------------------------------------------------- messages

  /** Section 5.1.1: the message, one bit, as few zeros as fill a block, and the length in bits. */
  ghost predicate PaddingOf(p: Bytes, m: Bytes) {
    && |p| % 64 == 0 && |m| + 9 <= |p| < |m| + 9 + 64 && p[..|m|] == m && p[|m|] == 0x80
    && (forall k :: |m| < k < |p| - 8 ==> p[k] == 0)
    && Value(p[|p| - 8..]) == 8 * |m| % WRAP64
  }

  lemma PaddedIs(m: Bytes)
    ensures PaddingOf(Padded(m), m)
  {
    hide BigEndian64, Value;
    var p, n := Padded(m), BigEndian64(8 * |m|);
    BigEndian64Value(8 * |m|);
    assert p[|p| - 8..] == n;
    assert p == m + ([0x80] + Zeros(ZeroCount(|m|)) + n);
  }

  /** One hash value after the other, from the first, one for each block. */
  ghost predicate HashesOf(hs: seq<Words>, p: Bytes)
    requires |p| % 64 == 0
  {
    |hs| == |p| / 64 + 1
    && (forall i :: 0 <= i < 8 ==> hs[0][i] == H0[i] as bv32)
    && (forall i {:trigger hs[i]} :: 0 <= i < |p| / 64 ==> Compresses(hs[i], p[64 * i..64 * i + 64], hs[i + 1]))
  }

  /** What FIPS 180-2 says the digest d of a message is. */
  ghost predicate DigestOf(d: Bytes, m: Bytes) {
    exists p, hs :: PaddingOf(p, m) && HashesOf(hs, p) && Writes(d, hs[|hs| - 1])
  }

  /** The words of a hash value, most significant byte first. */
  ghost predicate Writes(d: Bytes, h: Words) {
    |d| == 32 && forall i: nat :: i < 8 ==> WordIn(d, i) == h[i]
  }

  lemma WordAppended(a: Bytes, h: bv32, i: nat)
    requires |a| == 4 * i
    ensures |a + WordBytes(h)| == 4 * i + 4 && WordIn(a + WordBytes(h), i) == h
  {
    BytesAreNumber(h);
    hide WordBytes, Number;
    var d, b := a + WordBytes(h), WordBytes(h);
    assert d[4 * i] == b[0] && d[4 * i + 1] == b[1] && d[4 * i + 2] == b[2] && d[4 * i + 3] == b[3];
  }

  lemma WordKept(a: Bytes, b: Bytes, i: nat)
    requires 4 * i + 4 <= |a|
    ensures WordIn(a + b, i) == WordIn(a, i)
  {
    hide Number;
  }

  lemma {:induction false} OutputAt(h: Words, n: nat)
    requires n <= 8
    ensures |OutputTo(h, n)| == 4 * n && forall i: nat :: i < n ==> WordIn(OutputTo(h, n), i) == h[i]
  {
    if n > 0 {
      hide WordBytes, WordIn;
      var before := OutputTo(h, n - 1);
      OutputAt(h, n - 1);
      WordAppended(before, h[n - 1], n - 1);
      forall i: nat | i < n - 1 ensures WordIn(before + WordBytes(h[n - 1]), i) == h[i] {
        WordKept(before, WordBytes(h[n - 1]), i);
      }
    }
  }

  lemma OutputIs(h: Words)
    ensures Writes(Output(h), h)
  {
    hide OutputTo, Output, WordIn;
    OutputWhole(h);
    OutputAt(h, 8);
  }

  /** The digest the code computes is the one of the standard. */
  lemma DigestIs(m: Bytes)
    ensures DigestOf(Digest(m), m)
  {
    var p := Padded(m);
    PaddedIs(m);
    hide Compress, Compresses, Padded, PaddingOf, Writes, Output;
    var hs := HashesAre(p);
    OutputIs(hs[|hs| - 1]);
  }

  lemma HashesAre(p: Bytes) returns (hs: seq<Words>)
    requires |p| % 64 == 0
    ensures HashesOf(hs, p) && hs[|hs| - 1] == CompressAll(Initial(), p, |p| / 64)
  {
    hide Compress, Compresses;
    hs := seq(|p| / 64 + 1, i requires 0 <= i <= |p| / 64 => CompressAll(Initial(), p, i));
    forall i | 0 <= i < |p| / 64
      ensures Compresses(hs[i], p[64 * i..64 * i + 64], hs[i + 1])
    {
      CompressIs(hs[i], p[64 * i..64 * i + 64]);
    }
  }
}
