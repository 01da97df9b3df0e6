/** The AES cipher of FIPS 197 with a 128-bit key, and the code that runs it on a block inside a buffer. */
module AesRounds {
  import opened AesField

  const NR := 10

  /** A block, or the four by four state: byte r of column c is at 4 * c + r. */
  type Block = b: seq<bv8> | |b| == 16 witness seq(16, _ => 0)

  /** The expanded key: eleven round keys. */
  type Schedule = w: seq<bv8> | |w| == 176 witness seq(176, _ => 0)

  function RoundKey(w: Schedule, round: nat): Block
    requires round <= NR
  {
    w[16 * round..16 * round + 16]
  }

  /** `AddRoundKey`, and also the chaining of the modes. */
  function Xor(a: Block, b: Block): Block {
    seq(16, i requires 0 <= i < 16 => Add(a[i], b[i]))
  }

  function SubBytes(s: Block): Block {
    seq(16, i requires 0 <= i < 16 => Sbox(s[i]))
  }

  function InvSubBytes(s: Block): Block {
    seq(16, i requires 0 <= i < 16 => Rsbox(s[i]))
  }

  /** The byte k columns further right in the same row. */
  function Along(i: nat, k: nat): (j: nat)
    requires i < 16 && k < 4
    ensures j < 16 && j % 4 == i % 4
  {
    if i + 4 * k < 16 then i + 4 * k else i + 4 * k - 16
  }

  /** Row r turns left by r columns: section 5.1.2 of FIPS 197. */
  function ShiftRows(s: Block): Block {
    seq(16, i requires 0 <= i < 16 => s[Along(i, i % 4)])
  }

  function Back(r: nat): nat
    requires r < 4
  {
    if r == 0 then 0 else 4 - r
  }

  function InvShiftRows(s: Block): Block {
    seq(16, i requires 0 <= i < 16 => s[Along(i, Back(i % 4))])
  }

  /** The byte k rows further down in the same column. */
  function Below(i: nat, k: nat): (j: nat)
    requires i < 16 && k < 4
    ensures j < 16 && j % 4 == (i + k) % 4
  {
    if i % 4 + k < 4 then i + k else i + k - 4
  }

  function MixColumns(s: Block): Block {
    seq(16, i requires 0 <= i < 16 => MixEntry(s[i], s[Below(i, 1)], s[Below(i, 2)], s[Below(i, 3)]))
  }

  function InvMixColumns(s: Block): Block {
    seq(16, i requires 0 <= i < 16 => InvMixEntry(s[i], s[Below(i, 1)], s[Below(i, 2)], s[Below(i, 3)]))
  }

  // ---------------------------------------------------------------- the cipher and its inverse

  /** The state after `round` full rounds: section 5.1 of FIPS 197. */
  function Rounds(s: Block, w: Schedule, round: nat): Block
    requires round < NR
  {
    if round == 0 then Xor(s, RoundKey(w, 0))
    else Xor(MixColumns(ShiftRows(SubBytes(Rounds(s, w, round - 1)))), RoundKey(w, round))
  }

  function Cipher(s: Block, w: Schedule): Block {
    Xor(ShiftRows(SubBytes(Rounds(s, w, NR - 1))), RoundKey(w, NR))
  }

  /** The state of the inverse cipher when `round` round keys are still to be added: section 5.3. */
  function InvRounds(s: Block, w: Schedule, round: nat): Block
    requires 0 < round <= NR
    decreases NR - round
  {
    if round == NR then Xor(s, RoundKey(w, NR))
    else InvMixColumns(Xor(InvSubBytes(InvShiftRows(InvRounds(s, w, round + 1))), RoundKey(w, round)))
  }

  function InvCipher(s: Block, w: Schedule): Block {
    Xor(InvSubBytes(InvShiftRows(InvRounds(s, w, 1))), RoundKey(w, 0))
  }

  lemma XorXor(a: Block, b: Block)
    ensures Xor(Xor(a, b), b) == a
  {
    forall i | 0 <= i < 16 ensures Xor(Xor(a, b), b)[i] == a[i] {
      AddOrder(a[i], b[i], 0);
    }
  }

  lemma InvSubSub(s: Block)
    ensures InvSubBytes(SubBytes(s)) == s
  {
    forall i | 0 <= i < 16 ensures InvSubBytes(SubBytes(s))[i] == s[i] {
      SboxInverse(s[i]);
    }
  }

  lemma InvShiftShift(s: Block)
    ensures InvShiftRows(ShiftRows(s)) == s
  {
  }

  lemma InvMixMixColumns(s: Block)
    ensures InvMixColumns(MixColumns(s)) == s
  {
    forall i | 0 <= i < 16 ensures InvMixColumns(MixColumns(s))[i] == s[i] {
      hide Below, MixEntry, InvMixEntry;
      InvMixMix(s[i], s[Below(i, 1)], s[Below(i, 2)], s[Below(i, 3)]);
      forall j: nat, k: nat | j < 4 && k < 4 { BelowBelow(i, j, k); }
      BelowNone(i);
    }
  }

  lemma BelowNone(i: nat)
    requires i < 16
    ensures Below(i, 0) == i
  {
  }

  lemma BelowBelow(i: nat, j: nat, k: nat)
    requires i < 16 && j < 4 && k < 4
    ensures Below(Below(i, j), k) == Below(i, if j + k < 4 then j + k else j + k - 4)
  {
  }

  /** Round by round the inverse cipher passes through the states of the cipher. */
  lemma {:induction false} InvRoundsMeet(s: Block, w: Schedule, round: nat)
    requires 0 < round <= NR
    ensures InvRounds(Cipher(s, w), w, round) == ShiftRows(SubBytes(Rounds(s, w, round - 1)))
    decreases NR - round
  {
    hide Xor, SubBytes, InvSubBytes, ShiftRows, InvShiftRows, MixColumns, InvMixColumns, RoundKey;
    var before := SubBytes(Rounds(s, w, round - 1));
    if round == NR {
      XorXor(ShiftRows(before), RoundKey(w, NR));
    } else {
      InvRoundsMeet(s, w, round + 1);
      var after := Rounds(s, w, round);
      InvShiftShift(SubBytes(after));
      InvSubSub(after);
      XorXor(MixColumns(ShiftRows(before)), RoundKey(w, round));
      InvMixMixColumns(ShiftRows(before));
    }
  }

  /** For every key schedule and block the inverse cipher undoes the cipher. */
  lemma InvCipherUndoes(s: Block, w: Schedule)
    ensures InvCipher(Cipher(s, w), w) == s
  {
    hide Xor, SubBytes, InvSubBytes, ShiftRows, InvShiftRows, MixColumns, InvMixColumns, RoundKey, Cipher, InvRounds;
    InvRoundsMeet(s, w, 1);
    var first := Rounds(s, w, 0);
    InvShiftShift(SubBytes(first));
    InvSubSub(first);
    XorXor(s, RoundKey(w, 0));
  }
}
