/** Key expansion: section 5.2 of FIPS 197. */
module AesKeys {
  import opened AesField
  import opened AesRounds

  type Word = w: seq<bv8> | |w| == 4 witness [0, 0, 0, 0]

  function SubWord(w: Word): Word {
    [Sbox(w[0]), Sbox(w[1]), Sbox(w[2]), Sbox(w[3])]
  }

  function RotWord(w: Word): Word {
    [w[1], w[2], w[3], w[0]]
  }

  function XorWord(v: Word, w: Word): Word {
    [Add(v[0], w[0]), Add(v[1], w[1]), Add(v[2], w[2]), Add(v[3], w[3])]
  }

  /** The round constants of section 5.2 of FIPS 197: powers of x. */
  function Rcon(i: nat): bv8
    requires i > 0
  {
    if i == 1 then 1 else XTime(Rcon(i - 1))
  }

  const RCON: seq<bv8> := [0x8d, 0x01, 0x02, 0x04, 0x08, 0x10, 0x20, 0x40, 0x80, 0x1b, 0x36]

  lemma RconTable(i: nat)
    requires 0 < i <= NR
    ensures RCON[i] == Rcon(i)
  {
    if i > 1 {
      RconTable(i - 1);
      hide Rcon;
      RconStep(i);
    }
  }

  lemma RconStep(i: nat)
    requires 1 < i <= NR
    ensures Rcon(i) == XTime(Rcon(i - 1))
    ensures RCON[i] == XTime(RCON[i - 1])
  {
  }

  /** What the word before contributes to word i. */
  function Contribution(previous: Word, i: nat): Word
    requires i >= 4
  {
    if i % 4 == 0 then XorWord(SubWord(RotWord(previous)), [Rcon(i / 4), 0, 0, 0]) else previous
  }

  /** Word i of the key schedule: section 5.2. */
  function KeyWord(key: Block, i: nat): Word {
    if i < 4 then key[4 * i..4 * i + 4]
    else XorWord(KeyWord(key, i - 4), Contribution(KeyWord(key, i - 1), i))
  }

  function KeySchedule(key: Block): Schedule {
    seq(176, k requires 0 <= k < 176 => KeyWord(key, k / 4)[k % 4])
  }

  /** The round constant that byte k of the schedule takes in. */
  function RoundConstant(k: nat): bv8
    requires 16 <= k < 176
  {
    if k % 16 == 0 then RCON[k / 16] else 0
  }

  /**
   * Section 5.2 byte by byte: the key, and then every byte is the sum of the one 16 before it and, inside a round key,
   * of the one 4 before it, or else of the substituted byte of the word before that stands one place further on.
   */
  ghost predicate Expands(w: seq<bv8>, key: Block) {
    |w| == 176 && w[..16] == key
    && forall k {:trigger w[k]} :: 16 <= k < 176 ==>
         w[k] == Add(w[k - 16], if k % 16 >= 4 then w[k - 4]
                                else Add(Sbox(w[k - 4 - k % 4 + (k + 1) % 4]), RoundConstant(k)))
  }

  lemma ExpandedFrom(w: seq<bv8>, key: Block, k: nat)
    requires Expands(w, key) && 16 <= k < 176
    ensures k % 16 >= 4 ==> w[k] == Add(w[k - 16], w[k - 4])
    ensures k % 16 < 4 ==> w[k] == Add(w[k - 16], Add(Sbox(w[k - 4 - k % 4 + (k + 1) % 4]), RoundConstant(k)))
  {
    hide Sbox, Add;
  }

  /** Appendix A.1 of FIPS 197: the first word behind the key. */
  lemma ExpansionExample(w: seq<bv8>, key: Block)
    requires Expands(w, key)
    requires key == [0x2b, 0x7e, 0x15, 0x16, 0x28, 0xae, 0xd2, 0xa6, 0xab, 0xf7, 0x15, 0x88, 0x09, 0xcf, 0x4f, 0x3c]
    ensures |w| == 176 && w[16] == 0xa0 && w[17] == 0xfa && w[18] == 0xfe && w[19] == 0x17
  {
    hide Sbox, Expands, Add;
    ExpandedFrom(w, key, 16);
    ExpandedFrom(w, key, 17);
    ExpandedFrom(w, key, 18);
    ExpandedFrom(w, key, 19);
    StartsWithKey(w, key);
    ExampleBytes();
  }

  lemma StartsWithKey(w: seq<bv8>, key: Block)
    requires Expands(w, key)
    ensures |w| == 176 && forall k :: 0 <= k < 16 ==> w[k] == key[k]
  {
    hide Sbox, Add;
    assert forall k :: 0 <= k < 16 ==> w[k] == w[..16][k];
  }

  lemma ExampleBytes()
    ensures Sbox(0xcf) == 0x8a && Sbox(0x4f) == 0x84 && Sbox(0x3c) == 0xeb && Sbox(0x09) == 0x01
    ensures Add(0x2b, Add(0x8a, 0x01)) == 0xa0 && Add(0x7e, Add(0x84, 0)) == 0xfa
    ensures Add(0x15, Add(0xeb, 0)) == 0xfe && Add(0x16, Add(0x01, 0)) == 0x17
  {
  }

  lemma ScheduleAt(key: Block, k: nat)
    requires k < 176
    ensures KeySchedule(key)[k] == KeyWord(key, k / 4)[k % 4]
  {
  }

  lemma XorWordAt(v: Word, w: Word, r: nat)
    requires r < 4
    ensures XorWord(v, w)[r] == Add(v[r], w[r])
  {
    hide Add;
  }

  lemma TurnedAt(w: Word, r: nat)
    requires r < 4
    ensures SubWord(RotWord(w))[r] == Sbox(w[(r + 1) % 4])
  {
    hide Sbox;
  }

  lemma WordByte(key: Block, i: nat, r: nat)
    requires 4 <= i < 44 && r < 4
    ensures var before, v := KeyWord(key, i - 1), KeyWord(key, i - 4)[r];
      KeyWord(key, i)[r] == Add(v, if i % 4 > 0 then before[r]
                                   else Add(Sbox(before[(r + 1) % 4]), if r == 0 then RCON[i / 4] else 0))
  {
    hide Sbox, Rcon, XorWord, SubWord, RotWord, Add;
    var before := KeyWord(key, i - 1);
    XorWordAt(KeyWord(key, i - 4), Contribution(before, i), r);
    if i % 4 == 0 {
      RconTable(i / 4);
      XorWordAt(SubWord(RotWord(before)), [Rcon(i / 4), 0, 0, 0], r);
      TurnedAt(before, r);
    }
  }

  lemma At(i: nat, x: nat)
    requires x < 4
    ensures (4 * i + x) / 4 == i && (4 * i + x) % 4 == x
  {
  }

  lemma Places(k: nat)
    requires 16 <= k < 176
    ensures var i, r := k / 4, k % 4;
      && (k - 16) / 4 == i - 4 && (k - 16) % 4 == r && (k - 4) / 4 == i - 1 && (k - 4) % 4 == r
      && (k - 4 - r + (k + 1) % 4) / 4 == i - 1 && (k - 4 - r + (k + 1) % 4) % 4 == (r + 1) % 4 == (k + 1) % 4
      && 4 <= i < 44
  {
    var i, r, x := k / 4, k % 4, (k + 1) % 4;
    At(i - 4, r);
    At(i - 1, r);
    At(i - 1, x);
    assert k == 4 * i + r;
    assert x == if r == 3 then 0 else r + 1;
  }

  lemma InRound(k: nat)
    requires 16 <= k < 176
    ensures k % 16 >= 4 <==> k / 4 % 4 > 0
    ensures k % 16 == 0 <==> k / 4 % 4 == 0 && k % 4 == 0
    ensures k / 16 == k / 4 / 4
  {
  }

  lemma ScheduleByte(key: Block, k: nat)
    requires 16 <= k < 176
    ensures var w := KeySchedule(key);
      w[k] == Add(w[k - 16], if k % 16 >= 4 then w[k - 4]
                             else Add(Sbox(w[k - 4 - k % 4 + (k + 1) % 4]), RoundConstant(k)))
  {
    hide KeySchedule, KeyWord, Sbox, Add;
    Places(k);
    InRound(k);
    ScheduleAt(key, k);
    ScheduleAt(key, k - 16);
    ScheduleAt(key, k - 4);
    ScheduleAt(key, k - 4 - k % 4 + (k + 1) % 4);
    WordByte(key, k / 4, k % 4);
  }

  lemma ScheduleStarts(key: Block)
    ensures KeySchedule(key)[..16] == key
  {
    var w := KeySchedule(key);
    forall k | 0 <= k < 16 ensures w[k] == key[k] {
      ScheduleAt(key, k);
      assert key[4 * (k / 4)..4 * (k / 4) + 4][k % 4] == key[k];
    }
  }

  lemma ScheduleExpands(key: Block)
    ensures Expands(KeySchedule(key), key)
  {
    ScheduleStarts(key);
    forall k | 16 <= k < 176
      ensures var w := KeySchedule(key);
        w[k] == Add(w[k - 16], if k % 16 >= 4 then w[k - 4]
                               else Add(Sbox(w[k - 4 - k % 4 + (k + 1) % 4]), RoundConstant(k)))
    {
      ScheduleByte(key, k);
    }
  }

  /** The first n words of the schedule stand in the array. */
  ghost predicate Expanded(now: seq<bv8>, key: Block, n: nat) {
    |now| == 176 && n <= 44 && forall i :: 0 <= i < n ==> now[4 * i..4 * i + 4] == KeyWord(key, i)
  }

  lemma ExpandedByte(now: seq<bv8>, key: Block, k: nat)
    requires Expanded(now, key, 44) && k < 176
    ensures now[k] == KeySchedule(key)[k]
  {
    hide KeyWord;
    var i, r := k / 4, k % 4;
    assert k == 4 * i + r && now[4 * i..4 * i + 4] == KeyWord(key, i);
    assert now[4 * i + r] == now[4 * i..4 * i + 4][r];
  }

  lemma ExpandedWhole(now: seq<bv8>, key: Block)
    requires Expanded(now, key, 44)
    ensures now == KeySchedule(key)
  {
    forall k | 0 <= k < 176 ensures now[k] == KeySchedule(key)[k] {
      ExpandedByte(now, key, k);
    }
    hide KeySchedule, KeyWord, Expanded;
  }

  lemma ExpandedMore(was: seq<bv8>, now: seq<bv8>, key: Block, n: nat, w: Word)
    requires Expanded(was, key, n) && n < 44 && w == KeyWord(key, n)
    requires now == was[4 * n := w[0]][4 * n + 1 := w[1]][4 * n + 2 := w[2]][4 * n + 3 := w[3]]
    ensures Expanded(now, key, n + 1)
  {
    hide KeyWord;
    forall i | 0 <= i < n + 1 ensures now[4 * i..4 * i + 4] == KeyWord(key, i) {
      if i < n { assert now[4 * i..4 * i + 4] == was[4 * i..4 * i + 4]; }
    }
  }

  lemma ExpandedAt(now: seq<bv8>, key: Block, n: nat, i: nat)
    requires Expanded(now, key, n) && i < n
    ensures 4 * i + 4 <= |now| && [now[4 * i], now[4 * i + 1], now[4 * i + 2], now[4 * i + 3]] == KeyWord(key, i)
  {
    assert now[4 * i..4 * i + 4] == KeyWord(key, i);
  }

  /** `KeyExpansion`. */
  method KeyExpansion(roundKey: array<bv8>, key: Block)
    requires roundKey.Length == 176
    modifies roundKey
    ensures roundKey[..] == KeySchedule(key) && Expands(roundKey[..], key)
  {
    ScheduleExpands(key);
    for i := 0 to 4
      invariant Expanded(roundKey[..], key, i)
    {
      ghost var was := roundKey[..];
      var j := 4 * i;
      roundKey[j], roundKey[j + 1], roundKey[j + 2], roundKey[j + 3] := key[j], key[j + 1], key[j + 2], key[j + 3];
      ExpandedMore(was, roundKey[..], key, i, key[j..j + 4]);
    }
    for i := 4 to 44
      invariant Expanded(roundKey[..], key, i)
    {
      NextWord(roundKey, key, i);
    }
    ExpandedWhole(roundKey[..], key);
  }

  /** What the code does to the word before. */
  method Contribute(previous: Word, i: nat) returns (t: Word)
    requires 4 <= i < 44
    ensures t == Contribution(previous, i)
  {
    t := previous;
    if i % 4 == 0 {
      t := RotWord(t);
      t := SubWord(t);
      RconTable(i / 4);
      hide Rcon, SubWord, RotWord;
      ZeroWord(t, RCON[i / 4]);
      t := [Add(t[0], RCON[i / 4]), t[1], t[2], t[3]];
    }
  }

  lemma NextKeyWord(key: Block, i: nat)
    requires i >= 4
    ensures KeyWord(key, i) == XorWord(KeyWord(key, i - 4), Contribution(KeyWord(key, i - 1), i))
  {
  }

  /** One round of its second loop. */
  method NextWord(roundKey: array<bv8>, ghost key: Block, i: nat)
    requires roundKey.Length == 176 && 4 <= i < 44 && Expanded(roundKey[..], key, i)
    modifies roundKey
    ensures Expanded(roundKey[..], key, i + 1)
  {
    hide Sbox, Expanded, XorWord, KeyWord;
    ghost var was := roundKey[..];
    var k := (i - 1) * 4;
    var t: Word := [roundKey[k], roundKey[k + 1], roundKey[k + 2], roundKey[k + 3]];
    ExpandedAt(was, key, i, i - 1);
    t := Contribute(t, i);
    hide Contribution;
    k := (i - 4) * 4;
    var j := i * 4;
    var v: Word := [roundKey[k], roundKey[k + 1], roundKey[k + 2], roundKey[k + 3]];
    ExpandedAt(was, key, i, i - 4);
    var w := XorWord(v, t);
    NextKeyWord(key, i);
    roundKey[j], roundKey[j + 1], roundKey[j + 2], roundKey[j + 3] := w[0], w[1], w[2], w[3];
    ExpandedMore(was, roundKey[..], key, i, w);
  }

  lemma ZeroWord(t: Word, c: bv8)
    ensures XorWord(t, [c, 0, 0, 0]) == [Add(t[0], c), t[1], t[2], t[3]]
  {
  }
}
