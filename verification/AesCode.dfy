/** The round functions as they work in place on sixteen bytes of a larger buffer. */
module AesCode {
  import opened AesField
  import opened AesRounds

  /** The block at a position has become b, and nothing else has changed. */
  ghost predicate Changed(was: seq<bv8>, now: seq<bv8>, at: nat, b: Block) {
    |now| == |was| && at + 16 <= |was|
    && forall k :: 0 <= k < |was| ==> now[k] == if at <= k < at + 16 then b[k - at] else was[k]
  }

  function BlockAt(s: seq<bv8>, at: nat): Block
    requires at + 16 <= |s|
  {
    s[at..at + 16]
  }

  lemma ChangedBlock(was: seq<bv8>, now: seq<bv8>, at: nat, b: Block)
    requires Changed(was, now, at, b)
    ensures |now| == |was| && at + 16 <= |was| && BlockAt(now, at) == b
  {
  }

  lemma ChangedAgain(was: seq<bv8>, now: seq<bv8>, later: seq<bv8>, at: nat, b: Block, c: Block)
    requires Changed(was, now, at, b) && Changed(now, later, at, c)
    ensures Changed(was, later, at, c)
  {
  }

  method AddRoundKey(round: nat, a: array<bv8>, at: nat, roundKey: array<bv8>)
    requires round <= NR && at + 16 <= a.Length && roundKey.Length == 176 && a != roundKey
    modifies a
    ensures Changed(old(a[..]), a[..], at, Xor(BlockAt(old(a[..]), at), RoundKey(roundKey[..], round)))
  {
    for i := 0 to 4
      invariant forall k :: 0 <= k < a.Length ==>
        a[k] == if at <= k < at + 4 * i then Add(old(a[k]), roundKey[16 * round + k - at]) else old(a[k])
    {
      for j := 0 to 4
        invariant forall k :: 0 <= k < a.Length ==>
          a[k] == if at <= k < at + 4 * i + j then Add(old(a[k]), roundKey[16 * round + k - at]) else old(a[k])
      {
        a[at + 4 * i + j] := a[at + 4 * i + j] ^ roundKey[round * 16 + i * 4 + j];
      }
    }
  }

  /** Which bytes the loops of `SubBytes` have passed, row by row, before byte j of row i. */
  predicate Passed(k: int, i: int, j: int) {
    0 <= k < 16 && (k % 4 < i || (k % 4 == i && k / 4 < j))
  }

  method SubBytesInPlace(a: array<bv8>, at: nat)
    requires at + 16 <= a.Length
    modifies a
    ensures Changed(old(a[..]), a[..], at, SubBytes(BlockAt(old(a[..]), at)))
  {
    hide Sbox;
    for i := 0 to 4
      invariant forall k :: 0 <= k < a.Length ==>
        a[k] == if Passed(k - at, i, 0) then Sbox(old(a[k])) else old(a[k])
    {
      for j := 0 to 4
        invariant forall k :: 0 <= k < a.Length ==>
          a[k] == if Passed(k - at, i, j) then Sbox(old(a[k])) else old(a[k])
      {
        a[at + 4 * j + i] := Sbox(a[at + 4 * j + i]);
      }
    }
  }

  method InvSubBytesInPlace(a: array<bv8>, at: nat)
    requires at + 16 <= a.Length
    modifies a
    ensures Changed(old(a[..]), a[..], at, InvSubBytes(BlockAt(old(a[..]), at)))
  {
    hide Rsbox;
    for i := 0 to 4
      invariant forall k :: 0 <= k < a.Length ==>
        a[k] == if Passed(k - at, i, 0) then Rsbox(old(a[k])) else old(a[k])
    {
      for j := 0 to 4
        invariant forall k :: 0 <= k < a.Length ==>
          a[k] == if Passed(k - at, i, j) then Rsbox(old(a[k])) else old(a[k])
      {
        a[at + 4 * j + i] := Rsbox(a[at + 4 * j + i]);
      }
    }
  }

  /** Row r has turned left by n columns. */
  ghost predicate RowTurned(was: seq<bv8>, now: seq<bv8>, at: nat, r: nat, n: nat)
    requires n < 4
  {
    |now| == |was| && at + 16 <= |was|
    && (forall k :: 0 <= k < |was| && !(at <= k < at + 16) ==> now[k] == was[k])
    && (forall i: nat {:trigger Along(i, n)} :: i < 16 ==>
          now[at + i] == if i % 4 == r then was[at + Along(i, n)] else was[at + i])
  }

  lemma AlongEach(r: nat)
    requires r < 4
    ensures Along(r, 1) == r + 4 && Along(r + 4, 1) == r + 8 && Along(r + 8, 1) == r + 12 && Along(r + 12, 1) == r
    ensures forall i: nat {:trigger Along(i, 1)} :: i < 16 && i % 4 == r ==> i == r || i == r + 4 || i == r + 8 || i == r + 12
  {
  }

  method TurnOnce(a: array<bv8>, at: nat, r: nat)
    requires at + 16 <= a.Length && r < 4
    modifies a
    ensures RowTurned(old(a[..]), a[..], at, r, 1)
  {
    AlongEach(r);
    hide Along;
    var temp := a[at + r];
    a[at + r] := a[at + r + 4];
    a[at + r + 4] := a[at + r + 8];
    a[at + r + 8] := a[at + r + 12];
    a[at + r + 12] := temp;
  }

  lemma AlongTwice(r: nat)
    requires r < 4
    ensures Along(r, 2) == r + 8 && Along(r + 4, 2) == r + 12 && Along(r + 8, 2) == r && Along(r + 12, 2) == r + 4
    ensures forall i: nat {:trigger Along(i, 2)} :: i < 16 && i % 4 == r ==> i == r || i == r + 4 || i == r + 8 || i == r + 12
  {
  }

  lemma AlongThrice(r: nat)
    requires r < 4
    ensures Along(r, 3) == r + 12 && Along(r + 4, 3) == r && Along(r + 8, 3) == r + 4 && Along(r + 12, 3) == r + 8
    ensures forall i: nat {:trigger Along(i, 3)} :: i < 16 && i % 4 == r ==> i == r || i == r + 4 || i == r + 8 || i == r + 12
  {
  }

  method TurnTwice(a: array<bv8>, at: nat, r: nat)
    requires at + 16 <= a.Length && r < 4
    modifies a
    ensures RowTurned(old(a[..]), a[..], at, r, 2)
  {
    AlongTwice(r);
    hide Along;
    var temp := a[at + r];
    a[at + r] := a[at + r + 8];
    a[at + r + 8] := temp;
    temp := a[at + r + 4];
    a[at + r + 4] := a[at + r + 12];
    a[at + r + 12] := temp;
  }

  method TurnThrice(a: array<bv8>, at: nat, r: nat)
    requires at + 16 <= a.Length && r < 4
    modifies a
    ensures RowTurned(old(a[..]), a[..], at, r, 3)
  {
    AlongThrice(r);
    hide Along;
    var temp := a[at + r + 12];
    a[at + r + 12] := a[at + r + 8];
    a[at + r + 8] := a[at + r + 4];
    a[at + r + 4] := a[at + r];
    a[at + r] := temp;
  }

  method ShiftRowsInPlace(a: array<bv8>, at: nat)
    requires at + 16 <= a.Length
    modifies a
    ensures Changed(old(a[..]), a[..], at, ShiftRows(BlockAt(old(a[..]), at)))
  {
    ghost var was := a[..];
    TurnOnce(a, at, 1);
    ghost var one := a[..];
    TurnTwice(a, at, 2);
    ghost var two := a[..];
    TurnThrice(a, at, 3);
    RowsTurned(was, one, two, a[..], at);
  }

  lemma RowsTurned(was: seq<bv8>, one: seq<bv8>, two: seq<bv8>, three: seq<bv8>, at: nat)
    requires RowTurned(was, one, at, 1, 1) && RowTurned(one, two, at, 2, 2) && RowTurned(two, three, at, 3, 3)
    ensures Changed(was, three, at, ShiftRows(BlockAt(was, at)))
  {
    hide RowTurned, Along;
    RowTurnedOutside(was, one, at, 1, 1);
    RowTurnedOutside(one, two, at, 2, 2);
    RowTurnedOutside(two, three, at, 3, 3);
    forall k | at <= k < at + 16 ensures three[k] == ShiftRows(BlockAt(was, at))[k - at] {
      RowsTurnedAt(was, one, two, three, at, k - at);
    }
  }

  lemma RowsTurnedAt(was: seq<bv8>, one: seq<bv8>, two: seq<bv8>, three: seq<bv8>, at: nat, i: nat)
    requires RowTurned(was, one, at, 1, 1) && RowTurned(one, two, at, 2, 2) && RowTurned(two, three, at, 3, 3)
    requires i < 16
    ensures |three| == |was| && at + 16 <= |was| && three[at + i] == ShiftRows(BlockAt(was, at))[i]
  {
    var j := Along(i, i % 4);
    assert at + 16 <= |was| ==> ShiftRows(BlockAt(was, at))[i] == was[at + j];
    hide RowTurned, Along, ShiftRows;
    AlongRow(i, i % 4);
    RowTurnedAt(was, one, at, 1, 1, i);
    RowTurnedAt(one, two, at, 2, 2, i);
    RowTurnedAt(two, three, at, 3, 3, i);
    RowTurnedAt(was, one, at, 1, 1, j);
    RowTurnedAt(one, two, at, 2, 2, j);
  }

  lemma AlongRow(i: nat, n: nat)
    requires i < 16 && n < 4
    ensures Along(i, n) % 4 == i % 4
    ensures Along(i, 0) == i
  {
  }

  lemma RowTurnedOutside(was: seq<bv8>, now: seq<bv8>, at: nat, r: nat, n: nat)
    requires n < 4 && RowTurned(was, now, at, r, n)
    ensures |now| == |was| && at + 16 <= |was|
    ensures forall k :: 0 <= k < |was| && !(at <= k < at + 16) ==> now[k] == was[k]
  {
  }

  lemma RowTurnedAt(was: seq<bv8>, now: seq<bv8>, at: nat, r: nat, n: nat, i: nat)
    requires n < 4 && i < 16 && RowTurned(was, now, at, r, n)
    ensures |now| == |was| && at + 16 <= |was|
    ensures now[at + i] == if i % 4 == r then was[at + Along(i, n)] else was[at + i]
  {
    assert Along(i, n) < 16;
  }

  method InvShiftRowsInPlace(a: array<bv8>, at: nat)
    requires at + 16 <= a.Length
    modifies a
    ensures Changed(old(a[..]), a[..], at, InvShiftRows(BlockAt(old(a[..]), at)))
  {
    ghost var was := a[..];
    TurnThrice(a, at, 1);
    ghost var one := a[..];
    TurnTwice(a, at, 2);
    ghost var two := a[..];
    TurnOnce(a, at, 3);
    RowsTurnedBack(was, one, two, a[..], at);
  }

  lemma RowsTurnedBack(was: seq<bv8>, one: seq<bv8>, two: seq<bv8>, three: seq<bv8>, at: nat)
    requires RowTurned(was, one, at, 1, 3) && RowTurned(one, two, at, 2, 2) && RowTurned(two, three, at, 3, 1)
    ensures Changed(was, three, at, InvShiftRows(BlockAt(was, at)))
  {
    hide RowTurned, Along;
    RowTurnedOutside(was, one, at, 1, 3);
    RowTurnedOutside(one, two, at, 2, 2);
    RowTurnedOutside(two, three, at, 3, 1);
    forall k | at <= k < at + 16 ensures three[k] == InvShiftRows(BlockAt(was, at))[k - at] {
      RowsTurnedBackAt(was, one, two, three, at, k - at);
    }
  }

  lemma RowsTurnedBackAt(was: seq<bv8>, one: seq<bv8>, two: seq<bv8>, three: seq<bv8>, at: nat, i: nat)
    requires RowTurned(was, one, at, 1, 3) && RowTurned(one, two, at, 2, 2) && RowTurned(two, three, at, 3, 1)
    requires i < 16
    ensures |three| == |was| && at + 16 <= |was| && three[at + i] == InvShiftRows(BlockAt(was, at))[i]
  {
    var j := Along(i, Back(i % 4));
    assert at + 16 <= |was| ==> InvShiftRows(BlockAt(was, at))[i] == was[at + j];
    hide RowTurned, Along, InvShiftRows;
    AlongRow(i, Back(i % 4));
    RowTurnedAt(was, one, at, 1, 3, i);
    RowTurnedAt(one, two, at, 2, 2, i);
    RowTurnedAt(two, three, at, 3, 1, i);
    RowTurnedAt(was, one, at, 1, 3, j);
    RowTurnedAt(one, two, at, 2, 2, j);
  }

  /** A column has been replaced and nothing else. */
  ghost predicate ColumnSet(was: seq<bv8>, now: seq<bv8>, p: nat, a: bv8, b: bv8, c: bv8, d: bv8) {
    |now| == |was| && p + 4 <= |was|
    && (forall k :: 0 <= k < |was| && !(p <= k < p + 4) ==> now[k] == was[k])
    && now[p] == a && now[p + 1] == b && now[p + 2] == c && now[p + 3] == d
  }

  /** The columns before the one at 4 * i have become those of t. */
  ghost predicate ColumnsSet(was: seq<bv8>, now: seq<bv8>, at: nat, t: Block, i: nat) {
    |now| == |was| && at + 16 <= |was| && i <= 4
    && forall k :: 0 <= k < |was| ==> now[k] == if at <= k < at + 4 * i then t[k - at] else was[k]
  }

  lemma ColumnsSetMore(was: seq<bv8>, now: seq<bv8>, later: seq<bv8>, at: nat, t: Block, i: nat)
    requires ColumnsSet(was, now, at, t, i) && i < 4
    requires ColumnSet(now, later, at + 4 * i, t[4 * i], t[4 * i + 1], t[4 * i + 2], t[4 * i + 3])
    ensures ColumnsSet(was, later, at, t, i + 1)
  {
  }

  /** The bytes of a column before it is mixed. */
  lemma ColumnsUnset(was: seq<bv8>, now: seq<bv8>, at: nat, t: Block, i: nat)
    requires ColumnsSet(was, now, at, t, i) && i < 4
    ensures |now| == |was| && at + 16 <= |was|
    ensures var p, s := at + 4 * i, BlockAt(was, at);
      now[p] == s[4 * i] && now[p + 1] == s[4 * i + 1] && now[p + 2] == s[4 * i + 2] && now[p + 3] == s[4 * i + 3]
  {
    var s := BlockAt(was, at);
    assert forall k :: 0 <= k < 16 ==> s[k] == was[at + k];
  }

  /** One round of the loop of `MixColumns`. */
  method NextMixColumn(a: array<bv8>, at: nat, i: nat, ghost was: seq<bv8>, ghost s: Block)
    requires ColumnsSet(was, a[..], at, MixColumns(s), i) && i < 4 && s == BlockAt(was, at)
    modifies a
    ensures ColumnsSet(was, a[..], at, MixColumns(s), i + 1)
  {
    hide ColumnSet, MixColumns, MixEntry, BlockAt;
    ghost var now := a[..];
    ColumnsUnset(was, now, at, MixColumns(s), i);
    hide ColumnsSet;
    MixColumn(a, at + 4 * i);
    ColumnMixed(s, i);
    ColumnsSetMore(was, now, a[..], at, MixColumns(s), i);
  }

  method MixColumnsInPlace(a: array<bv8>, at: nat)
    requires at + 16 <= a.Length
    modifies a
    ensures Changed(old(a[..]), a[..], at, MixColumns(BlockAt(old(a[..]), at)))
  {
    ghost var was := a[..];
    ghost var s := BlockAt(was, at);
    for i := 0 to 4
      invariant ColumnsSet(was, a[..], at, MixColumns(s), i)
    {
      hide ColumnsSet, MixColumns, BlockAt;
      NextMixColumn(a, at, i, was, s);
    }
  }

  lemma ColumnMixed(s: Block, i: nat)
    requires i < 4
    ensures var a, b, c, d, t := s[4 * i], s[4 * i + 1], s[4 * i + 2], s[4 * i + 3], MixColumns(s);
      t[4 * i] == MixEntry(a, b, c, d) && t[4 * i + 1] == MixEntry(b, c, d, a)
      && t[4 * i + 2] == MixEntry(c, d, a, b) && t[4 * i + 3] == MixEntry(d, a, b, c)
  {
    hide MixColumns, MixEntry, InvMixColumns, InvMixEntry;
    MixColumnsAt(s, i, 0);
    MixColumnsAt(s, i, 1);
    MixColumnsAt(s, i, 2);
    MixColumnsAt(s, i, 3);
  }

  lemma MixColumnsAt(s: Block, i: nat, r: nat)
    requires i < 4 && r < 4
    ensures MixColumns(s)[4 * i + r]
      == MixEntry(s[4 * i + r], s[4 * i + (r + 1) % 4], s[4 * i + (r + 2) % 4], s[4 * i + (r + 3) % 4])
    ensures InvMixColumns(s)[4 * i + r]
      == InvMixEntry(s[4 * i + r], s[4 * i + (r + 1) % 4], s[4 * i + (r + 2) % 4], s[4 * i + (r + 3) % 4])
  {
    hide MixEntry, InvMixEntry;
    ColumnBelow(i, r);
  }

  lemma ColumnUnmixed(s: Block, i: nat)
    requires i < 4
    ensures var a, b, c, d, t := s[4 * i], s[4 * i + 1], s[4 * i + 2], s[4 * i + 3], InvMixColumns(s);
      t[4 * i] == InvMixEntry(a, b, c, d) && t[4 * i + 1] == InvMixEntry(b, c, d, a)
      && t[4 * i + 2] == InvMixEntry(c, d, a, b) && t[4 * i + 3] == InvMixEntry(d, a, b, c)
  {
    hide MixColumns, MixEntry, InvMixColumns, InvMixEntry;
    MixColumnsAt(s, i, 0);
    MixColumnsAt(s, i, 1);
    MixColumnsAt(s, i, 2);
    MixColumnsAt(s, i, 3);
  }

  lemma ColumnBelow(i: nat, r: nat)
    requires i < 4 && r < 4
    ensures Below(4 * i + r, 1) == 4 * i + (r + 1) % 4
    ensures Below(4 * i + r, 2) == 4 * i + (r + 2) % 4
    ensures Below(4 * i + r, 3) == 4 * i + (r + 3) % 4
  {
  }

  /** One column of `MixColumns`. */
  method MixColumn(a: array<bv8>, p: nat)
    requires p + 4 <= a.Length
    modifies a
    ensures var b, c, d, e := old(a[p]), old(a[p + 1]), old(a[p + 2]), old(a[p + 3]);
      ColumnSet(old(a[..]), a[..], p, MixEntry(b, c, d, e), MixEntry(c, d, e, b), MixEntry(d, e, b, c), MixEntry(e, b, c, d))
  {
    hide MixEntry, Blend, Sum;
    var t, all := a[p], Sum(a[p], a[p + 1], a[p + 2], a[p + 3]);
    ghost var c, d, e := a[p + 1], a[p + 2], a[p + 3];
    Turn(t, c, d, e);
    BlendMixes(t, c, d, e);
    BlendMixes(c, d, e, t);
    BlendMixes(d, e, t, c);
    BlendMixes(e, t, c, d);
    a[p] := Blend(a[p], a[p + 1], all);
    a[p + 1] := Blend(a[p + 1], a[p + 2], all);
    a[p + 2] := Blend(a[p + 2], a[p + 3], all);
    a[p + 3] := Blend(a[p + 3], t, all);
  }

  /** One round of the loop of `InvMixColumns`. */
  method NextInvMixColumn(a: array<bv8>, at: nat, i: nat, ghost was: seq<bv8>, ghost s: Block)
    requires ColumnsSet(was, a[..], at, InvMixColumns(s), i) && i < 4 && s == BlockAt(was, at)
    modifies a
    ensures ColumnsSet(was, a[..], at, InvMixColumns(s), i + 1)
  {
    hide ColumnSet, InvMixColumns, InvMixEntry, BlockAt;
    ghost var now := a[..];
    ColumnsUnset(was, now, at, InvMixColumns(s), i);
    hide ColumnsSet;
    InvMixColumn(a, at + 4 * i);
    ColumnUnmixed(s, i);
    ColumnsSetMore(was, now, a[..], at, InvMixColumns(s), i);
  }

  method InvMixColumnsInPlace(a: array<bv8>, at: nat)
    requires at + 16 <= a.Length
    modifies a
    ensures Changed(old(a[..]), a[..], at, InvMixColumns(BlockAt(old(a[..]), at)))
  {
    ghost var was := a[..];
    ghost var s := BlockAt(was, at);
    for i := 0 to 4
      invariant ColumnsSet(was, a[..], at, InvMixColumns(s), i)
    {
      hide ColumnsSet, InvMixColumns, BlockAt;
      NextInvMixColumn(a, at, i, was, s);
    }
  }

  /** One column of `InvMixColumns`. */
  method InvMixColumn(a: array<bv8>, p: nat)
    requires p + 4 <= a.Length
    modifies a
    ensures var b, c, d, e := old(a[p]), old(a[p + 1]), old(a[p + 2]), old(a[p + 3]);
      ColumnSet(old(a[..]), a[..], p,
                InvMixEntry(b, c, d, e), InvMixEntry(c, d, e, b), InvMixEntry(d, e, b, c), InvMixEntry(e, b, c, d))
  {
    hide Multiply, Sum;
    var b, c, d, e := a[p], a[p + 1], a[p + 2], a[p + 3];
    a[p] := Sum(Multiply(b, 0x0e), Multiply(c, 0x0b), Multiply(d, 0x0d), Multiply(e, 0x09));
    a[p + 1] := Sum(Multiply(b, 0x09), Multiply(c, 0x0e), Multiply(d, 0x0b), Multiply(e, 0x0d));
    a[p + 2] := Sum(Multiply(b, 0x0d), Multiply(c, 0x09), Multiply(d, 0x0e), Multiply(e, 0x0b));
    a[p + 3] := Sum(Multiply(b, 0x0b), Multiply(c, 0x0d), Multiply(d, 0x09), Multiply(e, 0x0e));
    Turn(Multiply(b, 0x09), Multiply(c, 0x0e), Multiply(d, 0x0b), Multiply(e, 0x0d));
    Turn(Multiply(b, 0x0d), Multiply(c, 0x09), Multiply(d, 0x0e), Multiply(e, 0x0b));
    Turn(Multiply(b, 0x0b), Multiply(c, 0x0d), Multiply(d, 0x09), Multiply(e, 0x0e));
  }

  /** `Cipher`. */
  method CipherInPlace(a: array<bv8>, at: nat, roundKey: array<bv8>)
    requires at + 16 <= a.Length && roundKey.Length == 176 && a != roundKey
    modifies a
    ensures Changed(old(a[..]), a[..], at, Cipher(BlockAt(old(a[..]), at), roundKey[..]))
  {
    hide Changed, Xor, SubBytes, ShiftRows, MixColumns, RoundKey, BlockAt;
    ghost var was, s, w := a[..], BlockAt(a[..], at), roundKey[..];
    AddRoundKey(0, a, at, roundKey);
    ghost var now, state := a[..], Rounds(s, w, 0);
    var round := 1;
    while true
      invariant 1 <= round <= NR && state == Rounds(s, w, round - 1)
      invariant roundKey[..] == w && now == a[..] && Changed(was, now, at, state)
      decreases NR - round
    {
      ChangedBlock(was, now, at, state);
      SubBytesInPlace(a, at);
      ChangedAgain(was, now, a[..], at, state, SubBytes(state));
      now, state := a[..], SubBytes(state);
      ChangedBlock(was, now, at, state);
      ShiftRowsInPlace(a, at);
      ChangedAgain(was, now, a[..], at, state, ShiftRows(state));
      now, state := a[..], ShiftRows(state);
      ChangedBlock(was, now, at, state);
      if round == NR {
        break;
      }
      MixColumnsInPlace(a, at);
      ChangedAgain(was, now, a[..], at, state, MixColumns(state));
      now, state := a[..], MixColumns(state);
      ChangedBlock(was, now, at, state);
      AddRoundKey(round, a, at, roundKey);
      ChangedAgain(was, now, a[..], at, state, Xor(state, RoundKey(w, round)));
      now, state := a[..], Xor(state, RoundKey(w, round));
      round := round + 1;
    }
    AddRoundKey(NR, a, at, roundKey);
    ChangedAgain(was, now, a[..], at, state, Xor(state, RoundKey(w, NR)));
  }

  /** `InvCipher`. */
  method InvCipherInPlace(a: array<bv8>, at: nat, roundKey: array<bv8>)
    requires at + 16 <= a.Length && roundKey.Length == 176 && a != roundKey
    modifies a
    ensures Changed(old(a[..]), a[..], at, InvCipher(BlockAt(old(a[..]), at), roundKey[..]))
  {
    hide Changed, Xor, InvSubBytes, InvShiftRows, InvMixColumns, RoundKey, BlockAt;
    ghost var was, s, w := a[..], BlockAt(a[..], at), roundKey[..];
    AddRoundKey(NR, a, at, roundKey);
    ghost var now, state := a[..], InvRounds(s, w, NR);
    var round := NR - 1;
    while true
      invariant 0 <= round < NR && state == InvRounds(s, w, round + 1)
      invariant roundKey[..] == w && now == a[..] && Changed(was, now, at, state)
      decreases round
    {
      ChangedBlock(was, now, at, state);
      InvShiftRowsInPlace(a, at);
      ChangedAgain(was, now, a[..], at, state, InvShiftRows(state));
      now, state := a[..], InvShiftRows(state);
      ChangedBlock(was, now, at, state);
      InvSubBytesInPlace(a, at);
      ChangedAgain(was, now, a[..], at, state, InvSubBytes(state));
      now, state := a[..], InvSubBytes(state);
      ChangedBlock(was, now, at, state);
      AddRoundKey(round, a, at, roundKey);
      ChangedAgain(was, now, a[..], at, state, Xor(state, RoundKey(w, round)));
      now, state := a[..], Xor(state, RoundKey(w, round));
      ChangedBlock(was, now, at, state);
      if round == 0 {
        break;
      }
      InvMixColumnsInPlace(a, at);
      ChangedAgain(was, now, a[..], at, state, InvMixColumns(state));
      now, state := a[..], InvMixColumns(state);
      round := round - 1;
    }
  }
}
