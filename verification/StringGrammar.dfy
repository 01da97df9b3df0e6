/** String literals as section 7 of RFC 8259 writes them, and the parser's two scans. */
module StringGrammar {
  import opened Text
  import opened Print
  import opened Parse
  import opened StringScan

  // ---------------------------------------------------------------- hexadecimal digits

  /** The digit with this value, in either case. */
  predicate Digit(c: byte, v: nat) {
    v < 16 && (c == "0123456789abcdef"[v] as int || c == "0123456789ABCDEF"[v] as int)
  }

  predicate FourDigits(s: Bytes, p: nat, a: nat, b: nat, c: nat, d: nat) {
    p + 4 <= |s| && Digit(s[p], a) && Digit(s[p + 1], b) && Digit(s[p + 2], c) && Digit(s[p + 3], d)
  }

  /** Four digits at p spell h to the base 16. */
  ghost predicate Spells(s: Bytes, p: nat, h: nat) {
    exists a: nat, b: nat, c: nat, d: nat :: FourDigits(s, p, a, b, c, d) && h == 4096 * a + 256 * b + 16 * c + d
  }

  lemma DigitValue(c: byte, v: nat)
    ensures Digit(c, v) <==> HexValue(c) == Some(v)
  {
  }

  /** `parse_hex4` reads what four digits spell, and 0 where there are no four digits. */
  lemma HexReads(s: Bytes, p: nat, h: nat)
    requires p + 4 <= |s|
    ensures Spells(s, p, h) ==> Hex4(s, p) == h
    ensures Hex4(s, p) == h ==> Spells(s, p, h) || h == 0
  {
    var a, b, c, d := HexValue(s[p]), HexValue(s[p + 1]), HexValue(s[p + 2]), HexValue(s[p + 3]);
    forall c: byte, v: nat ensures Digit(c, v) <==> HexValue(c) == Some(v) { DigitValue(c, v); }
    hide HexValue, Digit;
    if a.Some? && b.Some? && c.Some? && d.Some? {
      assert FourDigits(s, p, a.value, b.value, c.value, d.value);
    }
  }

  // ---------------------------------------------------------------- one piece of a literal

  /** The characters that may follow a backslash, and the bytes they stand for. */
  const ESCAPES: string := "\"\\/bfnrt"
  const ESCAPED: Bytes := [34, 92, 47, 8, 12, 10, 13, 9]

  ghost predicate PlainPiece(s: Bytes, p: nat, q: nat, b: Bytes) {
    p < |s| && q == p + 1 && s[p] != '\"' as int && s[p] != '\\' as int && b == [s[p]]
  }

  ghost predicate EscapePiece(s: Bytes, p: nat, q: nat, b: Bytes) {
    p + 1 < |s| && q == p + 2 && s[p] == '\\' as int
    && exists k :: 0 <= k < 8 && s[p + 1] == ESCAPES[k] as int && b == [ESCAPED[k]]
  }

  predicate UnicodeMark(s: Bytes, p: nat) {
    p + 1 < |s| && s[p] == '\\' as int && s[p + 1] == 'u' as int
  }

  /** A code point of its own, written in UTF-8. */
  ghost predicate CodePiece(s: Bytes, p: nat, q: nat, b: Bytes) {
    q == p + 6 && UnicodeMark(s, p)
    && exists h :: Spells(s, p + 2, h) && (h < 0xD800 || 0xE000 <= h) && Utf8Decoded(b) == Some(h)
  }

  /** A surrogate pair, which stands for a code point from 0x10000 on: ten bits from either half. */
  ghost predicate PairPiece(s: Bytes, p: nat, q: nat, b: Bytes) {
    q == p + 12 && UnicodeMark(s, p) && UnicodeMark(s, p + 6)
    && exists x: nat, y: nat :: Halves(s, p, x, y) && Utf8Decoded(b) == Some(0x10000 + 0x400 * x + y)
  }

  ghost predicate Halves(s: Bytes, p: nat, x: nat, y: nat) {
    x < 0x400 && y < 0x400 && Spells(s, p + 2, 0xD800 + x) && Spells(s, p + 8, 0xDC00 + y)
  }

  ghost predicate Piece(s: Bytes, p: nat, q: nat, b: Bytes) {
    PlainPiece(s, p, q, b) || EscapePiece(s, p, q, b) || CodePiece(s, p, q, b) || PairPiece(s, p, q, b)
  }

  /** Between p and end stand pieces that together stand for b. */
  ghost predicate Literal(s: Bytes, p: nat, end: nat, b: Bytes)
    decreases end - p
  {
    (p == end && b == [])
    || exists q, c, rest :: p < q <= end && Piece(s, p, q, c) && Literal(s, q, end, rest) && b == c + rest
  }

  // ---------------------------------------------------------------- UTF-8 is unique

  lemma Two(b: Bytes, h: nat)
    requires Utf8Decoded(b) == Some(h) && |b| == 2
    ensures 0x80 <= h < 0x800 && h / 64 == b[0] - 0xC0 && h % 64 == b[1] - 0x80
  {
    assert Weight(b[..1], b[0] - 0xC0) == b[0] - 0xC0;
  }

  lemma Three(b: Bytes, h: nat)
    requires Utf8Decoded(b) == Some(h) && |b| == 3
    ensures 0x800 <= h < 0x10000 && h / 4096 == b[0] - 0xE0 && h / 64 % 64 == b[1] - 0x80 && h % 64 == b[2] - 0x80
  {
    var lead: int, second: int := b[0] - 0xE0, b[1] - 0x80;
    assert b[..2][..1] == b[..1] && Weight(b[..1], lead) == lead;
    assert Weight(b[..2], lead) == 64 * lead + second;
    Groups(h);
  }

  lemma Four(b: Bytes, h: nat)
    requires Utf8Decoded(b) == Some(h) && |b| == 4
    ensures 0x10000 <= h <= 0x10FFFF && h / 262144 == b[0] - 0xF0
    ensures h / 4096 % 64 == b[1] - 0x80 && h / 64 % 64 == b[2] - 0x80 && h % 64 == b[3] - 0x80
  {
    var lead: int, second: int, third: int := b[0] - 0xF0, b[1] - 0x80, b[2] - 0x80;
    assert b[..3][..2] == b[..2] && b[..2][..1] == b[..1] && Weight(b[..1], lead) == lead;
    assert Weight(b[..2], lead) == 64 * lead + second;
    assert Weight(b[..3], lead) == 64 * (64 * lead + second) + third;
    Groups(h);
  }

  /** No two byte strings decode to one code point. */
  lemma Utf8Unique(b: Bytes, h: nat)
    requires Utf8Decoded(b) == Some(h)
    ensures h <= 0x10FFFF && Utf8(h) == b
  {
    if |b| == 2 { Two(b, h); }
    if |b| == 3 { Three(b, h); }
    if |b| == 4 { Four(b, h); }
    hide Weight;
  }

  // ---------------------------------------------------------------- one step of the scans

  /** Both scans pass over a piece: the first sees no quote in it, the second writes what it stands for. */
  ghost predicate Passes(s: Bytes, p: nat, q: nat, b: Bytes) {
    p < q <= |s| && StringEnd(s, p) == StringEnd(s, q)
    && forall end :: q <= end < |s| ==> Unescaped(s, p, end) == Prepend(b, Unescaped(s, q, end))
  }

  lemma PlainPasses(s: Bytes, p: nat, q: nat, b: Bytes)
    requires PlainPiece(s, p, q, b)
    ensures Passes(s, p, q, b)
  {
  }

  lemma EscapePasses(s: Bytes, p: nat, q: nat, b: Bytes)
    requires EscapePiece(s, p, q, b)
    ensures Passes(s, p, q, b)
  {
    EscapeTable(s[p + 1], b);
  }

  /** Section 7 of RFC 8259: the two-character escapes. */
  lemma EscapeTable(c: byte, b: Bytes)
    ensures (exists k :: 0 <= k < 8 && c == ESCAPES[k] as int && b == [ESCAPED[k]])
      <==> SimpleEscape(c).Some? && b == [SimpleEscape(c).value]
  {
    var k := if c == 34 then 0 else if c == 92 then 1 else if c == 47 then 2 else if c == 98 then 3
             else if c == 102 then 4 else if c == 110 then 5 else if c == 114 then 6 else 7;
    assert SimpleEscape(c).Some? ==> c == ESCAPES[k] as int && SimpleEscape(c).value == ESCAPED[k];
  }

  /** Four digits hold no quote and no backslash. */
  lemma DigitsPass(s: Bytes, p: nat, h: nat)
    requires Spells(s, p, h)
    ensures p + 4 <= |s| && StringEnd(s, p) == StringEnd(s, p + 4) && Hex4(s, p) == h
  {
    HexReads(s, p, h);
    assert StringEnd(s, p) == StringEnd(s, p + 1) == StringEnd(s, p + 2) == StringEnd(s, p + 3) == StringEnd(s, p + 4);
  }

  lemma CodePasses(s: Bytes, p: nat, q: nat, b: Bytes)
    requires CodePiece(s, p, q, b)
    ensures Passes(s, p, q, b)
  {
    var h :| Spells(s, p + 2, h) && (h < 0xD800 || 0xE000 <= h) && Utf8Decoded(b) == Some(h);
    DigitsPass(s, p + 2, h);
    Utf8Unique(b, h);
    hide Utf8, Utf8Decoded, Spells, Hex4;
  }

  lemma PairReads(s: Bytes, p: nat, x: nat, y: nat, end: nat)
    requires UnicodeMark(s, p) && UnicodeMark(s, p + 6) && p + 12 <= end < |s| && x < 0x400 && y < 0x400
    requires Hex4(s, p + 2) == 0xD800 + x && Hex4(s, p + 8) == 0xDC00 + y
    ensures ReadEscape(s, p, end) == Some(Read(0x10000 + 0x400 * x + y, p + 12))
  {
    hide Hex4;
  }

  lemma MarkPasses(s: Bytes, p: nat)
    requires UnicodeMark(s, p)
    ensures StringEnd(s, p) == StringEnd(s, p + 2)
  {
  }

  lemma PairPasses(s: Bytes, p: nat, q: nat, b: Bytes)
    requires PairPiece(s, p, q, b)
    ensures Passes(s, p, q, b)
  {
    hide Utf8, Utf8Decoded, Spells, Hex4, StringEnd;
    var x: nat, y: nat :| Halves(s, p, x, y) && Utf8Decoded(b) == Some(0x10000 + 0x400 * x + y);
    DigitsPass(s, p + 2, 0xD800 + x);
    DigitsPass(s, p + 8, 0xDC00 + y);
    MarkPasses(s, p);
    MarkPasses(s, p + 6);
    Utf8Unique(b, 0x10000 + 0x400 * x + y);
    forall end | q <= end < |s| ensures Unescaped(s, p, end) == Prepend(b, Unescaped(s, q, end)) {
      PairReads(s, p, x, y, end);
      hide ReadEscape, Prepend;
    }
  }

  lemma PiecePasses(s: Bytes, p: nat, q: nat, b: Bytes)
    requires Piece(s, p, q, b)
    ensures Passes(s, p, q, b)
  {
    hide Passes, PlainPiece, EscapePiece, CodePiece, PairPiece;
    if PlainPiece(s, p, q, b) { PlainPasses(s, p, q, b); }
    else if EscapePiece(s, p, q, b) { EscapePasses(s, p, q, b); }
    else if CodePiece(s, p, q, b) { CodePasses(s, p, q, b); }
    else { PairPasses(s, p, q, b); }
  }

  // ---------------------------------------------------------------- whole literals

  lemma {:induction false} LiteralScans(s: Bytes, p: nat, end: nat, b: Bytes)
    requires Literal(s, p, end, b) && end < |s| && s[end] == QUOTE
    ensures StringEnd(s, p) == Some(end) && Unescaped(s, p, end) == Some(b)
    decreases end - p
  {
    if !(p == end && b == []) {
      var q, c, rest :| p < q <= end && Piece(s, p, q, c) && Literal(s, q, end, rest) && b == c + rest;
      PiecePasses(s, p, q, c);
      LiteralScans(s, q, end, rest);
      hide Piece, StringEnd, Unescaped, Literal;
    }
  }

  /** Every literal of RFC 8259 is read, and as the string it stands for, up to its first zero byte. */
  lemma LiteralReads(s: Bytes, off: nat, end: nat, b: Bytes)
    requires off < end < |s| && s[off] == QUOTE == s[end] && Literal(s, off + 1, end, b)
    ensures ReadString(s, off) == Some(Read(CString(b), end + 1))
  {
    hide Literal;
    LiteralScans(s, off + 1, end, b);
    hide StringEnd, Unescaped, CString;
  }

  /** Somewhere in a literal a "\\u" is not followed by four digits; the parser then reads a zero. */
  ghost predicate Mangled(s: Bytes, from: nat, end: nat) {
    exists k: nat :: from <= k && k + 6 <= end && UnicodeMark(s, k) && !ExistsHex(s, k + 2)
  }

  ghost predicate ExistsHex(s: Bytes, p: nat) {
    exists h: nat :: Spells(s, p, h)
  }

  /** What the second scan does at p is one piece, unless it is at a mangled escape. */
  lemma NextPiece(s: Bytes, p: nat, end: nat, b: Bytes) returns (q: nat, c: Bytes, rest: Bytes)
    requires p < end < |s| && StringEnd(s, p) == Some(end) && Unescaped(s, p, end) == Some(b) && !Mangled(s, p, end)
    ensures p < q <= end && Piece(s, p, q, c) && b == c + rest
    ensures StringEnd(s, q) == Some(end) && Unescaped(s, q, end) == Some(rest)
  {
    if s[p] != BACKSLASH {
      q, c := p + 1, [s[p]];
      assert PlainPiece(s, p, q, c);
      rest := Unescaped(s, q, end).value;
    } else if s[p + 1] == LETTER_U {
      q, c := NextCode(s, p, end);
      rest := Unescaped(s, q, end).value;
    } else {
      q, c := p + 2, [SimpleEscape(s[p + 1]).value];
      EscapeTable(s[p + 1], c);
      assert EscapePiece(s, p, q, c);
      rest := Unescaped(s, q, end).value;
    }
  }

  lemma NextCode(s: Bytes, p: nat, end: nat) returns (q: nat, c: Bytes)
    requires p < end < |s| && StringEnd(s, p) == Some(end) && UnicodeMark(s, p) && !Mangled(s, p, end)
    requires ReadEscape(s, p, end).Some?
    ensures var r := ReadEscape(s, p, end).value; q == r.next && c == Utf8(r.value)
    ensures p < q <= end && Piece(s, p, q, c) && StringEnd(s, q) == Some(end)
  {
    hide StringEnd, Utf8, Utf8Decoded, Hex4, Spells;
    var r := ReadEscape(s, p, end).value;
    q, c := r.next, Utf8(r.value);
    Utf8RoundTrip(r.value);
    assert ExistsHex(s, p + 2);
    var h: nat :| Spells(s, p + 2, h);
    MarkPasses(s, p);
    DigitsPass(s, p + 2, h);
    if q == p + 6 {
      assert CodePiece(s, p, q, c);
    } else {
      assert UnicodeMark(s, p + 6) && ExistsHex(s, p + 8);
      var l: nat :| Spells(s, p + 8, l);
      MarkPasses(s, p + 6);
      DigitsPass(s, p + 8, l);
      assert Halves(s, p, h - 0xD800, l - 0xDC00);
      assert PairPiece(s, p, q, c);
    }
  }

  lemma {:induction false} ScansLiteral(s: Bytes, p: nat, end: nat, b: Bytes)
    requires p <= end < |s| && StringEnd(s, p) == Some(end) && Unescaped(s, p, end) == Some(b) && !Mangled(s, p, end)
    ensures Literal(s, p, end, b)
    decreases end - p
  {
    if p < end {
      var q, c, rest := NextPiece(s, p, end, b);
      assert !Mangled(s, q, end);
      ScansLiteral(s, q, end, rest);
      hide Piece, StringEnd, Unescaped, Mangled;
    }
  }

  /** Without mangled escapes nothing else is read. */
  lemma ReadIsLiteral(s: Bytes, off: nat, t: Str, next: nat) returns (b: Bytes)
    requires ReadString(s, off) == Some(Read(t, next)) && !Mangled(s, off + 1, next - 1)
    ensures s[off] == QUOTE && next <= |s| && s[next - 1] == QUOTE && off + 1 < next
    ensures Literal(s, off + 1, next - 1, b) && t == CString(b)
  {
    hide StringEnd, Unescaped, Literal, CString, Mangled, ReadString;
    b := StringParts(s, off, t, next);
    ScansLiteral(s, off + 1, next - 1, b);
  }

  lemma StringParts(s: Bytes, off: nat, t: Str, next: nat) returns (b: Bytes)
    requires ReadString(s, off) == Some(Read(t, next))
    ensures off + 1 < next <= |s| && s[off] == QUOTE == s[next - 1] && t == CString(b)
    ensures StringEnd(s, off + 1) == Some(next - 1) && Unescaped(s, off + 1, next - 1) == Some(b)
  {
    b := Unescaped(s, off + 1, next - 1).value;
    hide StringEnd, Unescaped, CString;
  }

  /** A C string is what stands in front of the first zero byte. */
  lemma {:induction false} CStringIs(b: Bytes)
    ensures |CString(b)| <= |b| && b[..|CString(b)|] == CString(b)
    ensures |CString(b)| < |b| ==> b[|CString(b)|] == 0
  {
    if b != [] && b[0] != 0 {
      CStringIs(b[1..]);
      assert b[..|CString(b)|] == [b[0]] + b[1..][..|CString(b[1..])|];
    }
  }
}
