/** The parser as a function of the text: what is read at an offset, and where reading goes on. */
module Parse {
  import opened Text
  import opened Json
  import opened Print

  type Bytes = seq<byte>

  const NESTING_LIMIT := 1000
  const INT_MAX: int32 := 0x7FFF_FFFF
  const INT_MIN: int32 := -0x8000_0000

  datatype Read<+T> = Read(value: T, next: nat)

  predicate StartsWith(s: Bytes, off: nat, t: Str) {
    off + |t| <= |s| && s[off..off + |t|] == t
  }

  predicate HasByte(s: Bytes, off: nat, c: byte) {
    off < |s| && s[off] == c
  }

  // ---------- white space

  function SkipFrom(s: Bytes, off: nat): (i: nat)
    requires off <= |s|
    ensures off <= i <= |s|
    ensures forall k :: off <= k < i ==> s[k] <= 32
    ensures i < |s| ==> s[i] > 32
    decreases |s| - off
  {
    if off == |s| || s[off] > 32 then off else SkipFrom(s, off + 1)
  }

  /** `buffer_skip_whitespace`: steps back onto the last byte if it ran into the end. */
  function Skip(s: Bytes, off: nat): (i: nat)
    requires off <= |s|
    ensures off <= i <= |s|
    ensures off < |s| ==> i < |s|
  {
    var i := SkipFrom(s, off);
    if off < |s| && i == |s| then |s| - 1 else i
  }

  // ---------- numbers

  /** The bytes `parse_number` copies for `strtod`. */
  predicate NumberByte(c: byte) {
    48 <= c <= 57 || c == 43 || c == 45 || c == 101 || c == 69 || c == 46
  }

  predicate DigitByte(c: byte) {
    48 <= c <= 57
  }

  /** The end of a run of digits that starts at `off`, looking at most up to `limit`. */
  function DigitsEnd(s: Bytes, off: nat, limit: nat): (e: nat)
    requires off <= limit <= |s|
    ensures off <= e <= limit
    ensures forall k :: off <= k < e ==> DigitByte(s[k])
    ensures e < limit ==> !DigitByte(s[e])
    decreases limit - off
  {
    if off == limit || !DigitByte(s[off]) then off else DigitsEnd(s, off + 1, limit)
  }

  function DecimalValue(s: Bytes, from: nat, end: nat): nat
    requires from <= end <= |s| && forall k :: from <= k < end ==> DigitByte(s[k])
    decreases end
  {
    if from == end then 0
    else
      assert DigitByte(s[end - 1]);
      var c: int := s[end - 1];
      10 * DecimalValue(s, from, end - 1) + c - 48
  }

  /** Out of range numbers stop at the nearest representable one. */
  function Saturated(n: int): int32 {
    if n >= INT_MAX then INT_MAX else if n <= INT_MIN then INT_MIN else n
  }

  /** `parse_number` on a number without fraction or exponent; at most 63 bytes are looked at. */
  function ReadNumber(s: Bytes, off: nat): (r: Option<Read<Json>>)
    requires off < |s|
    ensures r.Some? ==> off < r.value.next <= |s|
  {
    var limit := if off + 63 <= |s| then off + 63 else |s|;
    var start := if s[off] == MINUS then off + 1 else off;
    var end := DigitsEnd(s, start, limit);
    if end == start then None
    else
      var n: int := DecimalValue(s, start, end);
      Some(Read(Number(Saturated(if s[off] == MINUS then -n else n)), end))
  }

  // ---------- strings

  /** The first scan of `parse_string`: the position of the closing quote. */
  function StringEnd(s: Bytes, i: nat): (e: Option<nat>)
    requires i <= |s|
    ensures e.Some? ==> i <= e.value < |s| && s[e.value] == QUOTE
    decreases |s| - i
  {
    if i == |s| then None
    else if s[i] == QUOTE then Some(i)
    else if s[i] == BACKSLASH then if i + 1 >= |s| then None else StringEnd(s, i + 2)
    else StringEnd(s, i + 1)
  }

  function HexValue(c: byte): Option<nat> {
    if 48 <= c <= 57 then Some(c - 48)
    else if 65 <= c <= 70 then Some(c - 55)
    else if 97 <= c <= 102 then Some(c - 87)
    else None
  }

  /** `parse_hex4`: zero unless all four are hexadecimal digits. */
  function Hex4(s: Bytes, p: nat): (h: nat)
    requires p + 4 <= |s|
    ensures h <= 0xFFFF
  {
    var a, b, c, d := HexValue(s[p]), HexValue(s[p + 1]), HexValue(s[p + 2]), HexValue(s[p + 3]);
    if a.Some? && b.Some? && c.Some? && d.Some? then
      4096 * a.value + 256 * b.value + 16 * c.value + d.value
    else 0
  }

  predicate LowSurrogate(u: nat) {
    0xDC00 <= u <= 0xDFFF
  }

  predicate HighSurrogate(u: nat) {
    0xD800 <= u <= 0xDBFF
  }

  /** Section 2.2 of RFC 2781: the code point of a surrogate pair. */
  function Combine(high: nat, low: nat): (cp: nat)
    requires HighSurrogate(high) && LowSurrogate(low)
    ensures 0x10000 <= cp <= 0x10FFFF
  {
    0x10000 + (high - 0xD800) * 0x400 + (low - 0xDC00)
  }

  function Utf8Length(cp: nat): nat
    requires cp <= 0x10FFFF
  {
    if cp < 0x80 then 1 else if cp < 0x800 then 2 else if cp < 0x10000 then 3 else 4
  }

  /** Section 3 of RFC 3629. */
  function Utf8(cp: nat): (b: Bytes)
    requires cp <= 0x10FFFF
    ensures |b| == Utf8Length(cp)
  {
    if cp < 0x80 then [cp]
    else if cp < 0x800 then [0xC0 + cp / 64, 0x80 + cp % 64]
    else if cp < 0x10000 then [0xE0 + cp / 4096, 0x80 + cp / 64 % 64, 0x80 + cp % 64]
    else [0xF0 + cp / 262144, 0x80 + cp / 4096 % 64, 0x80 + cp / 64 % 64, 0x80 + cp % 64]
  }

  /** `utf16_literal_to_utf8`: the code point of the escape at p, and how long the escape is. */
  function ReadEscape(s: Bytes, p: nat, end: nat): (r: Option<Read<nat>>)
    requires p <= end <= |s|
    ensures r.Some? ==> r.value.value <= 0x10FFFF && (r.value.next == p + 6 || r.value.next == p + 12) && r.value.next <= end
    ensures r.Some? && r.value.next == p + 6 ==> r.value.value < 0x10000
  {
    if end - p < 6 then None
    else
      var first := Hex4(s, p + 2);
      if LowSurrogate(first) then None
      else if HighSurrogate(first) then
        if end - p < 12 || s[p + 6] != BACKSLASH || s[p + 7] != LETTER_U then None
        else
          var second := Hex4(s, p + 8);
          if !LowSurrogate(second) then None else Some(Read(Combine(first, second), p + 12))
      else Some(Read(first, p + 6))
  }

  /** The byte a two-character escape stands for. */
  function SimpleEscape(c: byte): Option<byte> {
    if c == 98 then Some(8)
    else if c == 102 then Some(12)
    else if c == 110 then Some(10)
    else if c == 114 then Some(13)
    else if c == 116 then Some(9)
    else if c == QUOTE || c == BACKSLASH || c == 47 then Some(c)
    else None
  }

  /** The second scan of `parse_string`: everything it writes from p on. */
  function Unescaped(s: Bytes, p: nat, end: nat): Option<Bytes>
    requires end < |s|
    decreases end + 1 - p
  {
    if p >= end then Some([])
    else if s[p] != BACKSLASH then Prepend([s[p]], Unescaped(s, p + 1, end))
    else if s[p + 1] == LETTER_U then
      var r := ReadEscape(s, p, end);
      if r == None then None else Prepend(Utf8(r.value.value), Unescaped(s, r.value.next, end))
    else
      var c := SimpleEscape(s[p + 1]);
      if c == None then None else Prepend([c.value], Unescaped(s, p + 2, end))
  }

  function Prepend(b: Bytes, rest: Option<Bytes>): Option<Bytes> {
    if rest == None then None else Some(b + rest.value)
  }

  /** A C string ends at its first zero byte. */
  function CString(b: Bytes): Str {
    if b == [] || b[0] == 0 then [] else [b[0]] + CString(b[1..])
  }

  function ReadString(s: Bytes, off: nat): (r: Option<Read<Str>>)
    ensures r.Some? ==> off + 1 < r.value.next <= |s|
  {
    if !HasByte(s, off, QUOTE) then None
    else
      var end := StringEnd(s, off + 1);
      if end == None then None
      else
        var bytes := Unescaped(s, off + 1, end.value);
        if bytes == None then None else Some(Read(CString(bytes.value), end.value + 1))
  }

  // ---------- values

  /** `parse_value`. */
  function ReadValue(s: Bytes, off: nat, depth: nat): (r: Option<Read<Json>>)
    ensures r.Some? ==> off < r.value.next <= |s|
    decreases |s| - off, 1
  {
    if StartsWith(s, off, NULL_TEXT) then Some(Read(Null, off + 4))
    else if StartsWith(s, off, FALSE_TEXT) then Some(Read(False, off + 5))
    else if StartsWith(s, off, TRUE_TEXT) then Some(Read(True, off + 4))
    else if HasByte(s, off, QUOTE) then
      var t := ReadString(s, off);
      if t == None then None else Some(Read(String(t.value.value), t.value.next))
    else if off < |s| && (s[off] == MINUS || DigitByte(s[off])) then ReadNumber(s, off)
    else if HasByte(s, off, OPEN_ARRAY) then ReadArray(s, off, depth)
    else if HasByte(s, off, OPEN_OBJECT) then ReadObject(s, off, depth)
    else None
  }

  /** `parse_array`, from its opening bracket. */
  function ReadArray(s: Bytes, off: nat, depth: nat): (r: Option<Read<Json>>)
    requires off < |s|
    ensures r.Some? ==> off < r.value.next <= |s|
    decreases |s| - off, 0
  {
    if depth >= NESTING_LIMIT then None
    else
      var first := Skip(s, off + 1);
      if HasByte(s, first, CLOSE_ARRAY) then Some(Read(Array([]), first + 1))
      else if first == |s| then None
      else
        var items := ReadItems(s, first, depth + 1);
        if items == None then None else Some(Read(Array(items.value.value), items.value.next))
  }

  /** The loop of `parse_array`, from just before an element to just after the closing bracket. */
  function ReadItems(s: Bytes, off: nat, depth: nat): (r: Option<Read<seq<Json>>>)
    requires off <= |s|
    ensures r.Some? ==> off < r.value.next <= |s|
    decreases |s| - off, 2
  {
    var v := ReadValue(s, Skip(s, off), depth);
    if v == None then None
    else
      var after := Skip(s, v.value.next);
      if HasByte(s, after, COMMA) then
        var rest := ReadItems(s, after + 1, depth);
        if rest == None then None else Some(Read([v.value.value] + rest.value.value, rest.value.next))
      else if HasByte(s, after, CLOSE_ARRAY) then Some(Read([v.value.value], after + 1))
      else None
  }

  /** `parse_object`, from its opening brace. */
  function ReadObject(s: Bytes, off: nat, depth: nat): (r: Option<Read<Json>>)
    requires off < |s|
    ensures r.Some? ==> off < r.value.next <= |s|
    decreases |s| - off, 0
  {
    if depth >= NESTING_LIMIT then None
    else
      var first := Skip(s, off + 1);
      if HasByte(s, first, CLOSE_OBJECT) then Some(Read(Object([]), first + 1))
      else if first == |s| then None
      else
        var ms := ReadMembers(s, first, depth + 1);
        if ms == None then None else Some(Read(Object(ms.value.value), ms.value.next))
  }

  /** One name, colon and value. */
  function ReadMember(s: Bytes, off: nat, depth: nat): (r: Option<Read<Member<Json>>>)
    requires off <= |s|
    ensures r.Some? ==> off < r.value.next <= |s|
    decreases |s| - off, 2
  {
    var key := ReadString(s, Skip(s, off));
    if key == None then None
    else
      var colon := Skip(s, key.value.next);
      if !HasByte(s, colon, COLON) then None
      else
        var v := ReadValue(s, Skip(s, colon + 1), depth);
        if v == None then None else Some(Read(Member(key.value.value, v.value.value), v.value.next))
  }

  function ReadMembers(s: Bytes, off: nat, depth: nat): (r: Option<Read<Members>>)
    requires off <= |s|
    ensures r.Some? ==> off < r.value.next <= |s|
    decreases |s| - off, 3
  {
    var m := ReadMember(s, off, depth);
    if m == None then None
    else
      var after := Skip(s, m.value.next);
      if HasByte(s, after, COMMA) then
        var rest := ReadMembers(s, after + 1, depth);
        if rest == None then None else Some(Read([m.value.value] + rest.value.value, rest.value.next))
      else if HasByte(s, after, CLOSE_OBJECT) then Some(Read([m.value.value], after + 1))
      else None
  }

  const BOM: Bytes := [0xEF, 0xBB, 0xBF]

  /** `skip_utf8_bom`: only looked for when at least five bytes are there. */
  function AfterBom(s: Bytes): nat {
    if |s| > 4 && s[..3] == BOM then 3 else 0
  }

  /** `cJSON_ParseWithLengthOpts`: the tree, and the offset where parsing ended. */
  function ReadDocument(s: Bytes, requireTerminated: bool): Option<Read<Json>> {
    if s == [] then None
    else
      var v := ReadValue(s, Skip(s, AfterBom(s)), 0);
      if v == None then None
      else if !requireTerminated then v
      else
        var end := Skip(s, v.value.next);
        if HasByte(s, end, 0) then Some(Read(v.value.value, end)) else None
  }
}
