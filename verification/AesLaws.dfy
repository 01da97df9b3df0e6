/** The cipher and its modes in the terms of FIPS 197 and SP 800-38A: byte by byte and block by block. */
module AesLaws {
  import opened AesField
  import opened AesRounds
  import opened AesCode
  import opened AesModes

  // ---------------------------------------------------------------- one round

  /** Byte r of column c of a state. */
  function Cell(s: Block, r: nat, c: nat): bv8
    requires r < 4 && c < 4
  {
    s[4 * c + r]
  }

  /** Section 5.1.2: row r is turned left by r columns. */
  lemma ShiftRowsCell(s: Block, r: nat, c: nat)
    requires r < 4 && c < 4
    ensures Cell(ShiftRows(s), r, c) == Cell(s, r, (c + r) % 4)
  {
    assert (4 * c + r) % 4 == r;
    assert (c + r) % 4 == if c + r < 4 then c + r else c + r - 4;
  }

  /** Twice and three times a byte, as polynomials. */
  function Double(a: bv8): bv8 {
    XTime(a)
  }

  function Triple(a: bv8): bv8 {
    Add(XTime(a), a)
  }

  lemma MultiplySmall(a: bv8)
    ensures Multiply(a, 2) == Double(a) && Multiply(a, 3) == Triple(a)
  {
  }

  /** Multiplication by x shifts, and subtracts the polynomial when a bit falls out. */
  lemma XTimeShifts(a: bv8)
    ensures a < 0x80 ==> XTime(a) == 2 * a
    ensures a >= 0x80 ==> XTime(a) == (2 * (a - 0x80)) ^ 0x1b
  {
  }

  /** Section 5.1.3: two times the byte itself, three times the next in its column, and the two others. */
  lemma MixColumnsCell(s: Block, r: nat, c: nat)
    requires r < 4 && c < 4
    ensures Cell(MixColumns(s), r, c)
         == Sum(Double(Cell(s, r, c)), Triple(Cell(s, (r + 1) % 4, c)), Cell(s, (r + 2) % 4, c), Cell(s, (r + 3) % 4, c))
  {
    hide Multiply, Double, Triple, Sum;
    MultiplySmall(Cell(s, r, c));
    MultiplySmall(Cell(s, (r + 1) % 4, c));
    BelowCell(r, c);
  }

  lemma BelowCell(r: nat, c: nat)
    requires r < 4 && c < 4
    ensures var i := 4 * c + r;
      && Below(i, 1) == 4 * c + (r + 1) % 4 && Below(i, 2) == 4 * c + (r + 2) % 4 && Below(i, 3) == 4 * c + (r + 3) % 4
  {
    assert (4 * c + r) % 4 == r;
    if r == 0 {} else if r == 1 {} else if r == 2 {} else {}
  }

  // ---------------------------------------------------------------- the whole cipher

  /** Byte r of column c after substitution and row shift. */
  function Shifted(s: Block, r: nat, c: nat): bv8
    requires r < 4 && c < 4
  {
    Sbox(Cell(s, r, (c + r) % 4))
  }

  /** The byte after a full round, before its round key. */
  function Mixed(s: Block, r: nat, c: nat): bv8
    requires r < 4 && c < 4
  {
    Sum(Double(Shifted(s, r, c)), Triple(Shifted(s, (r + 1) % 4, c)), Shifted(s, (r + 2) % 4, c), Shifted(s, (r + 3) % 4, c))
  }

  function KeyCell(w: Schedule, round: nat, r: nat, c: nat): bv8
    requires round <= 10 && r < 4 && c < 4
  {
    w[16 * round + 4 * c + r]
  }

  /** The states of section 5.1: the key added, nine full rounds, and a last round without mixing. */
  ghost predicate Enciphers(st: seq<Block>, s: Block, w: Schedule, out: Block) {
    |st| == 10
    && (forall r: nat, c: nat :: r < 4 && c < 4 ==> Cell(st[0], r, c) == Add(Cell(s, r, c), KeyCell(w, 0, r, c)))
    && (forall n: nat, r: nat, c: nat :: 0 < n < 10 && r < 4 && c < 4 ==>
          Cell(st[n], r, c) == Add(Mixed(st[n - 1], r, c), KeyCell(w, n, r, c)))
    && (forall r: nat, c: nat :: r < 4 && c < 4 ==> Cell(out, r, c) == Add(Shifted(st[9], r, c), KeyCell(w, 10, r, c)))
  }

  lemma XorCell(a: Block, w: Schedule, round: nat, r: nat, c: nat)
    requires round <= 10 && r < 4 && c < 4
    ensures Cell(Xor(a, RoundKey(w, round)), r, c) == Add(Cell(a, r, c), KeyCell(w, round, r, c))
  {
    hide Add;
  }

  lemma SubCell(s: Block, r: nat, c: nat)
    requires r < 4 && c < 4
    ensures Cell(SubBytes(s), r, c) == Sbox(Cell(s, r, c))
  {
    hide Sbox;
  }

  lemma ShiftedCell(s: Block, r: nat, c: nat)
    requires r < 4 && c < 4
    ensures Cell(ShiftRows(SubBytes(s)), r, c) == Shifted(s, r, c)
  {
    hide Sbox, ShiftRows, SubBytes, Cell;
    ShiftRowsCell(SubBytes(s), r, c);
    SubCell(s, r, (c + r) % 4);
  }

  lemma MixedCell(s: Block, r: nat, c: nat)
    requires r < 4 && c < 4
    ensures Cell(MixColumns(ShiftRows(SubBytes(s))), r, c) == Mixed(s, r, c)
  {
    hide Sbox, ShiftRows, SubBytes, MixColumns, Cell, Shifted, Double, Triple, Sum;
    MixColumnsCell(ShiftRows(SubBytes(s)), r, c);
    ShiftedCell(s, r, c);
    ShiftedCell(s, (r + 1) % 4, c);
    ShiftedCell(s, (r + 2) % 4, c);
    ShiftedCell(s, (r + 3) % 4, c);
  }

  lemma RoundsNext(s: Block, w: Schedule, n: nat)
    requires 0 < n < 10
    ensures Rounds(s, w, n) == Xor(MixColumns(ShiftRows(SubBytes(Rounds(s, w, n - 1)))), RoundKey(w, n))
    ensures Rounds(s, w, 0) == Xor(s, RoundKey(w, 0))
  {
    hide Xor, MixColumns, ShiftRows, SubBytes, RoundKey;
  }

  lemma EndCells(s: Block, w: Schedule, r: nat, c: nat)
    requires r < 4 && c < 4
    ensures Cell(Rounds(s, w, 0), r, c) == Add(Cell(s, r, c), KeyCell(w, 0, r, c))
    ensures Cell(Cipher(s, w), r, c) == Add(Shifted(Rounds(s, w, 9), r, c), KeyCell(w, 10, r, c))
  {
    hide Rounds, Xor, MixColumns, ShiftRows, SubBytes, RoundKey, Cell, Shifted, KeyCell, Add;
    RoundsNext(s, w, 1);
    XorCell(s, w, 0, r, c);
    ShiftedCell(Rounds(s, w, 9), r, c);
    XorCell(ShiftRows(SubBytes(Rounds(s, w, 9))), w, 10, r, c);
  }

  lemma RoundCell(s: Block, w: Schedule, n: nat, r: nat, c: nat)
    requires 0 < n < 10 && r < 4 && c < 4
    ensures Cell(Rounds(s, w, n), r, c) == Add(Mixed(Rounds(s, w, n - 1), r, c), KeyCell(w, n, r, c))
  {
    hide Rounds, Xor, MixColumns, ShiftRows, SubBytes, RoundKey, Cell, Mixed, KeyCell, Add;
    RoundsNext(s, w, n);
    MixedCell(Rounds(s, w, n - 1), r, c);
    XorCell(MixColumns(ShiftRows(SubBytes(Rounds(s, w, n - 1)))), w, n, r, c);
  }

  /** The cipher passes through these states, for every schedule and block. */
  lemma CipherEnciphers(s: Block, w: Schedule) returns (st: seq<Block>)
    ensures Enciphers(st, s, w, Cipher(s, w))
  {
    hide Rounds, Cipher, Cell, Shifted, Mixed, KeyCell, Add;
    st := seq(10, n requires 0 <= n < 10 => Rounds(s, w, n));
    forall r: nat, c: nat | r < 4 && c < 4
      ensures Cell(st[0], r, c) == Add(Cell(s, r, c), KeyCell(w, 0, r, c))
      ensures Cell(Cipher(s, w), r, c) == Add(Shifted(st[9], r, c), KeyCell(w, 10, r, c))
    {
      EndCells(s, w, r, c);
    }
    forall n: nat, r: nat, c: nat | 0 < n < 10 && r < 4 && c < 4
      ensures Cell(st[n], r, c) == Add(Mixed(st[n - 1], r, c), KeyCell(w, n, r, c))
    {
      RoundCell(s, w, n, r, c);
    }
  }

  // ---------------------------------------------------------------- the modes

  /** Section 6.2 of SP 800-38A: every block is combined with the ciphertext block before it, the first with the IV. */
  lemma CbcBlocks(p: Blocks, iv: Block, w: Schedule, n: nat)
    requires 16 * n < |p|
    ensures var c := CbcEncrypted(p, iv, w);
      BlockAt(c, 16 * n) == Cipher(Xor(BlockAt(p, 16 * n), if n == 0 then iv else BlockAt(c, 16 * (n - 1))), w)
    ensures CbcChain(p, iv, w, n + 1) == BlockAt(CbcEncrypted(p, iv, w), 16 * n)
  {
    hide Cipher, Xor, BlockAt, CbcEncrypted;
    CbcBlockAt(p, iv, w, n);
    if n > 0 { CbcBlockAt(p, iv, w, n - 1); }
  }

  lemma UncbcBlockAt(c: Blocks, iv: Block, w: Schedule, n: nat)
    requires 16 * n < |c|
    ensures BlockAt(CbcDecrypted(c, iv, w), 16 * n) == UncbcBlock(c, iv, w, n)
  {
    hide UncbcBlock;
    forall k | 0 <= k < 16 ensures BlockAt(CbcDecrypted(c, iv, w), 16 * n)[k] == UncbcBlock(c, iv, w, n)[k] {
      assert (16 * n + k) / 16 == n && (16 * n + k) % 16 == k;
    }
  }

  lemma UncbcBlocks(c: Blocks, iv: Block, w: Schedule, n: nat)
    requires 16 * n < |c|
    ensures BlockAt(CbcDecrypted(c, iv, w), 16 * n)
         == Xor(InvCipher(BlockAt(c, 16 * n), w), if n == 0 then iv else BlockAt(c, 16 * (n - 1)))
  {
    hide InvCipher, Xor, BlockAt, CbcDecrypted;
    UncbcBlockAt(c, iv, w, n);
  }

  lemma SameByte(a: bv8, b: bv8)
    requires a as nat == b as nat
    ensures a == b
  {
  }

  lemma SameDigits(a: nat, x: nat, b: nat, y: nat)
    requires x < 256 && y < 256 && 256 * a + x == 256 * b + y
    ensures a == b && x == y
  {
  }

  lemma {:induction false} SameValue(u: Block, v: Block, k: nat)
    requires k <= 16 && Value(u, k) == Value(v, k)
    ensures u[..k] == v[..k]
  {
    if k > 0 {
      ByteMore(u[k - 1]);
      ByteMore(v[k - 1]);
      SameDigits(Value(u, k - 1), u[k - 1] as nat, Value(v, k - 1), v[k - 1] as nat);
      hide Value;
      SameValue(u, v, k - 1);
      SameByte(u[k - 1], v[k - 1]);
      LongerPrefix(u, v, k);
    }
  }

  lemma LongerPrefix(u: Block, v: Block, k: nat)
    requires 0 < k <= 16 && u[..k - 1] == v[..k - 1] && u[k - 1] == v[k - 1]
    ensures u[..k] == v[..k]
  {
    assert u[..k] == u[..k - 1] + [u[k - 1]] && v[..k] == v[..k - 1] + [v[k - 1]];
  }

  /** Section 6.5: byte i is combined with byte i % 16 of the enciphered counter block, which is the IV plus i / 16. */
  lemma CtrBytes(p: seq<bv8>, iv: Block, w: Schedule, i: nat, block: Block)
    requires i < |p| && Value(block, 16) == (Value(iv, 16) + i / 16) % TWO_TO_128
    ensures CtrCrypted(p, iv, w)[i] == Add(p[i], Cipher(block, w)[i % 16])
  {
    hide Cipher, Add, Value;
    CounterValue(iv, i / 16);
    SameValue(Counter(iv, i / 16), block, 16);
    assert block[..16] == block && Counter(iv, i / 16)[..16] == Counter(iv, i / 16);
  }
}
