/** Bytes, C strings and the two key orders used throughout the JSON code. */
module Text {

  datatype Option<+T> = None | Some(value: T)

  lemma Regroup<T>(a: seq<T>, b: seq<T>, c: seq<T>)
    ensures a + (b + c) == a + b + c
  {
  }

  type byte = x: int | 0 <= x < 256

  /** A character of a C string: any byte but the terminator. */
  type cchar = x: int | 1 <= x < 256 witness 1

  /** The contents of a C string, without its terminating zero. */
  type Str = seq<cchar>

  /** `tolower` of the "C" locale. */
  function LowerChar(c: cchar): cchar {
    if 65 <= c <= 90 then c + 32 else c
  }

  function Lower(s: Str): (r: Str)
    ensures |r| == |s|
    ensures forall i :: 0 <= i < |s| ==> r[i] == LowerChar(s[i])
  {
    seq(|s|, i requires 0 <= i < |s| => LowerChar(s[i]))
  }

  /** How a key is seen by a comparison: as it is, or in lower case. */
  function Fold(caseSensitive: bool, s: Str): (r: Str)
    ensures |r| == |s|
  {
    if caseSensitive then s else Lower(s)
  }

  function FoldChar(cs: bool, c: cchar): cchar {
    if cs then c else LowerChar(c)
  }

  lemma {:induction false} FoldAt(cs: bool, s: Str, i: nat)
    requires i < |s|
    ensures Fold(cs, s)[i] == FoldChar(cs, s[i])
  {
  }

  /** The sign convention of `strcmp`: the difference of the first bytes that differ, counting the terminator. */
  function StrCmp(a: Str, b: Str): int {
    if a == [] || b == [] then
      (if a == [] then 0 else a[0]) - (if b == [] then 0 else b[0])
    else if a[0] != b[0] then
      a[0] - b[0]
    else
      StrCmp(a[1..], b[1..])
  }

  function Compare(caseSensitive: bool, a: Str, b: Str): int {
    StrCmp(Fold(caseSensitive, a), Fold(caseSensitive, b))
  }

  lemma {:induction false} StrCmpZero(a: Str, b: Str)
    ensures StrCmp(a, b) == 0 <==> a == b
  {
    if a == [] || b == [] {
    } else if a[0] == b[0] {
      StrCmpZero(a[1..], b[1..]);
      assert a == [a[0]] + a[1..] && b == [b[0]] + b[1..];
    }
  }

  lemma {:induction false} StrCmpFlip(a: Str, b: Str)
    ensures StrCmp(a, b) == -StrCmp(b, a)
  {
    if a != [] && b != [] && a[0] == b[0] {
      StrCmpFlip(a[1..], b[1..]);
    }
  }

  lemma {:induction false} StrCmpTransitive(a: Str, b: Str, c: Str)
    requires StrCmp(a, b) <= 0 && StrCmp(b, c) <= 0
    ensures StrCmp(a, c) <= 0
    ensures StrCmp(a, b) < 0 || StrCmp(b, c) < 0 ==> StrCmp(a, c) < 0
  {
    if a != [] && b != [] && c != [] && a[0] == b[0] == c[0] {
      StrCmpTransitive(a[1..], b[1..], c[1..]);
    }
  }

  /** `Compare` is a total preorder whose ties are exactly the keys that fold to the same string. */
  lemma CompareOrder(caseSensitive: bool, a: Str, b: Str)
    ensures Compare(caseSensitive, a, b) == 0 <==> Fold(caseSensitive, a) == Fold(caseSensitive, b)
    ensures Compare(caseSensitive, a, b) == -Compare(caseSensitive, b, a)
  {
    StrCmpZero(Fold(caseSensitive, a), Fold(caseSensitive, b));
    StrCmpFlip(Fold(caseSensitive, a), Fold(caseSensitive, b));
  }

  function CharAt(s: Str, i: nat): byte {
    if i < |s| then s[i] else 0
  }

  /** The loop shared by `compare_strings` and `case_insensitive_strcmp`. */
  method CompareStrings(a: Str, b: Str, caseSensitive: bool) returns (d: int)
    ensures d == Compare(caseSensitive, a, b)
    ensures d == 0 <==> Fold(caseSensitive, a) == Fold(caseSensitive, b)
  {
    CompareOrder(caseSensitive, a, b);
    ghost var x, y := Fold(caseSensitive, a), Fold(caseSensitive, b);
    var i := 0;
    while CharAt(Fold(caseSensitive, a), i) == CharAt(Fold(caseSensitive, b), i)
      invariant 0 <= i <= |a| && i <= |b|
      invariant StrCmp(x[i..], y[i..]) == StrCmp(x, y)
      decreases |a| - i
    {
      if CharAt(a, i) == 0 {
        return 0;
      }
      assert x[i..][1..] == x[i + 1..] && y[i..][1..] == y[i + 1..];
      i := i + 1;
    }
    return CharAt(Fold(caseSensitive, a), i) - CharAt(Fold(caseSensitive, b), i);
  }

  const ZERO: cchar := 48
  const NINE: cchar := 57

  /** Decimal digits without leading zeros, as `sprintf` writes an unsigned number. */
  function Decimal(n: nat): (s: Str)
    ensures s != [] && forall k :: 0 <= k < |s| ==> ZERO <= s[k] <= NINE
  {
    if n < 10 then [ZERO + n] else Decimal(n / 10) + [ZERO + n % 10]
  }

  lemma {:induction false} DecimalLead(n: nat)
    ensures n > 0 ==> Decimal(n)[0] != ZERO
    ensures n < 10 ==> |Decimal(n)| == 1
  {
    if n >= 10 { DecimalLead(n / 10); }
  }

  // ---------------------------------------------------------------- in terms of ASCII

  /** The characters of a literal. */
  function Ascii(s: string): (r: Str)
    requires forall i :: 0 <= i < |s| ==> 0 < s[i] as int < 128
    ensures |r| == |s| && forall i :: 0 <= i < |s| ==> r[i] == s[i] as int
  {
    seq(|s|, i requires 0 <= i < |s| => s[i] as int)
  }

  /** Letters, and only they, differ in case: the 26 of the alphabet, one for one. */
  lemma LowerLetters(c: cchar)
    ensures 'A' as int <= c <= 'Z' as int ==> LowerChar(c) - 'a' as int == c - 'A' as int
    ensures !('A' as int <= c <= 'Z' as int) ==> LowerChar(c) == c
  {
  }

  /** a comes before b: at the first place where they differ a has the smaller byte, or has ended. */
  lemma {:induction false} StrCmpBefore(a: Str, b: Str)
    ensures StrCmp(a, b) < 0 <==> exists i :: DiffersAt(a, b, i)
  {
    if a == [] || b == [] {
      assert b != [] ==> DiffersAt(a, b, 0);
    } else if a[0] != b[0] {
      assert a[0] < b[0] ==> DiffersAt(a, b, 0);
      forall i | 0 < i <= |a| && i < |b| ensures a[..i] != b[..i] { assert a[..i][0] != b[..i][0]; }
    } else {
      StrCmpBefore(a[1..], b[1..]);
      BeforeLonger(a, b);
    }
  }

  ghost predicate DiffersAt(a: Str, b: Str, i: int) {
    0 <= i <= |a| && i < |b| && a[..i] == b[..i] && (i == |a| || a[i] < b[i])
  }

  lemma BeforeLonger(a: Str, b: Str)
    requires a != [] && b != [] && a[0] == b[0]
    ensures (exists i :: DiffersAt(a[1..], b[1..], i)) <==> (exists i :: DiffersAt(a, b, i))
  {
    forall i | DiffersAt(a[1..], b[1..], i) ensures DiffersAt(a, b, i + 1) {
      assert a[..i + 1] == [a[0]] + a[1..][..i] && b[..i + 1] == [b[0]] + b[1..][..i];
    }
    forall i | DiffersAt(a, b, i) ensures DiffersAt(a[1..], b[1..], i - 1) {
      assert a[1..][..i - 1] == a[..i][1..] && b[1..][..i - 1] == b[..i][1..];
    }
  }

  /** The number a string of decimal digits spells. */
  function Numeral(s: seq<byte>): int {
    if s == [] then 0
    else
      var digit: int := s[|s| - 1];
      10 * Numeral(s[..|s| - 1]) + digit - '0' as int
  }

  /** `Decimal` writes n in the digits 0 to 9, and starts with a zero only for zero. */
  lemma {:induction false} DecimalNumeral(n: nat)
    ensures Numeral(Decimal(n)) == n
    ensures forall c :: c in Decimal(n) ==> '0' as int <= c <= '9' as int
    ensures n > 0 ==> Decimal(n)[0] != '0' as int
  {
    DecimalLead(n);
    if n < 10 {
      assert Decimal(n)[..0] == [];
    } else {
      DecimalNumeral(n / 10);
      assert Decimal(n)[..|Decimal(n)| - 1] == Decimal(n / 10);
    }
  }
}
