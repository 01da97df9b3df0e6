/** Parsing a printed tree gives the tree back. */
module ParsePrint {
  import opened Text
  import opened Json
  import opened Print
  import opened Parse

  /** The text t stands at offset `off`. */
  ghost predicate Spelled(s: Bytes, off: nat, t: Str) {
    off + |t| <= |s| && forall k :: 0 <= k < |t| ==> s[off + k] == t[k]
  }

  lemma SpelledSplit(s: Bytes, off: nat, a: Str, b: Str)
    requires Spelled(s, off, a + b)
    ensures Spelled(s, off, a) && Spelled(s, off + |a|, b)
  {
    assert forall k :: 0 <= k < |a| ==> (a + b)[k] == a[k];
    forall k | 0 <= k < |b| ensures s[off + |a| + k] == b[k] {
      assert (a + b)[|a| + k] == b[k];
    }
  }

  lemma SpelledText(s: Bytes, off: nat, t: Str)
    requires Spelled(s, off, t)
    ensures StartsWith(s, off, t)
  {
  }

  // ---------- string literals

  lemma EscapedByteEnds(s: Bytes, p: nat, c: cchar)
    requires Spelled(s, p, EscapeChar(c))
    ensures StringEnd(s, p) == StringEnd(s, p + |EscapeChar(c)|)
  {
    var e := EscapeChar(c);
    assert s[p] == e[0];
    if |e| == 6 {
      assert s[p + 2] == e[2] && s[p + 3] == e[3] && s[p + 4] == e[4] && s[p + 5] == e[5];
      assert StringEnd(s, p) == StringEnd(s, p + 2) == StringEnd(s, p + 3) == StringEnd(s, p + 4)
        == StringEnd(s, p + 5) == StringEnd(s, p + 6);
    }
  }

  lemma EscapedControl(s: Bytes, p: nat, c: cchar, end: nat)
    requires c < 32 && Spelled(s, p, [BACKSLASH, LETTER_U, 48, 48, HexDigit(c / 16), HexDigit(c % 16)])
    requires p + 6 <= end < |s|
    ensures ReadEscape(s, p, end) == Some(Read(c, p + 6))
  {
    var e := [BACKSLASH, LETTER_U, 48, 48, HexDigit(c / 16), HexDigit(c % 16)];
    assert s[p + 2] == e[2] && s[p + 3] == e[3] && s[p + 4] == e[4] && s[p + 5] == e[5];
    assert HexValue(HexDigit(c / 16)) == Some(c / 16) && HexValue(HexDigit(c % 16)) == Some(c % 16);
  }

  lemma EscapedByteReads(s: Bytes, p: nat, c: cchar, end: nat)
    requires Spelled(s, p, EscapeChar(c)) && p + |EscapeChar(c)| <= end < |s|
    ensures Unescaped(s, p, end) == Prepend([c], Unescaped(s, p + |EscapeChar(c)|, end))
  {
    var e := EscapeChar(c);
    assert s[p] == e[0];
    if |e| > 1 { assert s[p + 1] == e[1]; }
    if |e| == 6 {
      EscapedControl(s, p, c, end);
      assert Utf8(c) == [c];
    }
  }

  lemma {:induction false} EscapedEnds(s: Bytes, p: nat, t: Str, i: nat)
    requires i <= |t| && Spelled(s, p, EscapeFrom(t, i)) && HasByte(s, p + |EscapeFrom(t, i)|, QUOTE)
    ensures StringEnd(s, p) == Some(p + |EscapeFrom(t, i)|)
    decreases |t| - i
  {
    if i < |t| {
      SpelledSplit(s, p, EscapeChar(t[i]), EscapeFrom(t, i + 1));
      EscapedByteEnds(s, p, t[i]);
      EscapedEnds(s, p + |EscapeChar(t[i])|, t, i + 1);
    }
  }

  lemma {:induction false} EscapedReads(s: Bytes, p: nat, t: Str, i: nat, end: nat)
    requires i <= |t| && Spelled(s, p, EscapeFrom(t, i)) && end == p + |EscapeFrom(t, i)| < |s|
    ensures Unescaped(s, p, end) == Some(t[i..])
    decreases |t| - i
  {
    if i < |t| {
      SpelledSplit(s, p, EscapeChar(t[i]), EscapeFrom(t, i + 1));
      EscapedByteReads(s, p, t[i], end);
      EscapedReads(s, p + |EscapeChar(t[i])|, t, i + 1, end);
      assert t[i..] == [t[i]] + t[i + 1..];
    }
  }

  lemma {:induction false} CStringOf(t: Str)
    ensures CString(t) == t
  {
    if t != [] { CStringOf(t[1..]); }
  }

  /** A printed string literal reads back as the string. */
  lemma QuotedReads(s: Bytes, off: nat, t: Str)
    requires Spelled(s, off, Quoted(t))
    ensures ReadString(s, off) == Some(Read(t, off + |Quoted(t)|))
  {
    hide EscapeFrom, StringEnd, Unescaped;
    var e := EscapeFrom(t, 0);
    SpelledSplit(s, off, [QUOTE] + e, [QUOTE]);
    SpelledSplit(s, off, [QUOTE], e);
    assert s[off] == [QUOTE][0] && s[off + 1 + |e|] == [QUOTE][0];
    EscapedEnds(s, off + 1, t, 0);
    EscapedReads(s, off + 1, t, 0, off + 1 + |e|);
    CStringOf(t);
  }

  // ---------- numbers

  lemma {:induction false} DigitsEndIs(s: Bytes, from: nat, e: nat, limit: nat)
    requires from <= e <= limit <= |s|
    requires forall k :: from <= k < e ==> DigitByte(s[k])
    requires e == limit || !DigitByte(s[e])
    ensures DigitsEnd(s, from, limit) == e
    decreases e - from
  {
    if from < e { DigitsEndIs(s, from + 1, e, limit); }
  }

  lemma {:induction false} DecimalReads(s: Bytes, off: nat, n: nat)
    requires Spelled(s, off, Decimal(n))
    ensures forall k :: off <= k < off + |Decimal(n)| ==> DigitByte(s[k])
    ensures DecimalValue(s, off, off + |Decimal(n)|) == n
  {
    var t := Decimal(n);
    forall k | off <= k < off + |t| ensures DigitByte(s[k]) {
      assert s[off + (k - off)] == t[k - off];
    }
    if n >= 10 {
      SpelledSplit(s, off, Decimal(n / 10), [ZERO + n % 10]);
      DecimalReads(s, off, n / 10);
      assert s[off + |t| - 1] == t[|t| - 1];
    } else {
      assert s[off] == t[0];
      assert DecimalValue(s, off, off) == 0;
    }
  }

  function Magnitude(n: int): nat {
    if n < 0 then -n else n
  }

  /** What may follow a value: the end of the text, or a byte that cannot continue a number. */
  ghost predicate HasByteOrEnd(s: Bytes, off: nat) {
    off == |s| || (off < |s| && !NumberByte(s[off]))
  }

  lemma DigitsRead(s: Bytes, off: nat, m: nat, limit: nat)
    requires Spelled(s, off, Decimal(m)) && off + |Decimal(m)| <= limit <= |s|
    requires HasByteOrEnd(s, off + |Decimal(m)|)
    ensures DigitsEnd(s, off, limit) == off + |Decimal(m)|
    ensures DecimalValue(s, off, DigitsEnd(s, off, limit)) == m
    ensures DigitByte(s[off])
  {
    DecimalReads(s, off, m);
    DigitsEndIs(s, off, off + |Decimal(m)|, limit);
  }

  /** A printed 32-bit integer reads back as itself. */
  lemma IntegerReads(s: Bytes, off: nat, n: int32)
    requires Spelled(s, off, Integer(n))
    requires HasByteOrEnd(s, off + |Integer(n)|)
    ensures off < |s| && (s[off] == MINUS || DigitByte(s[off]))
    ensures ReadNumber(s, off) == Some(Read(Number(n), off + |Integer(n)|))
  {
    IntegerShort(n);
    var limit := if off + 63 <= |s| then off + 63 else |s|;
    assert s[off] == Integer(n)[0];
    hide DigitsEnd, DecimalValue, Decimal, Spelled;
    if n < 0 {
      SpelledSplit(s, off, [MINUS], Decimal(Magnitude(n)));
      DigitsRead(s, off + 1, Magnitude(n), limit);
    } else {
      DigitsRead(s, off, Magnitude(n), limit);
    }
  }

  // ---------- white space

  lemma {:induction false} SkipFromIs(s: Bytes, off: nat, q: nat)
    requires off <= q < |s| && s[q] > 32 && forall k :: off <= k < q ==> s[k] <= 32
    ensures SkipFrom(s, off) == q
    decreases q - off
  {
    if off < q { SkipFromIs(s, off + 1, q); }
  }

  lemma SkipIs(s: Bytes, off: nat, q: nat)
    requires off <= q < |s| && s[q] > 32 && forall k :: off <= k < q ==> s[k] <= 32
    ensures Skip(s, off) == q
  {
    SkipFromIs(s, off, q);
  }

  // ---------- values

  /** Every rendering starts with a byte that is not white space and that tells its kind. */
  lemma FirstByte(format: bool, depth: nat, j: Json)
    ensures Rendered(format, depth, j) != []
    ensures var c := Rendered(format, depth, j)[0];
      && c > 32 && c != CLOSE_ARRAY && c != CLOSE_OBJECT
      && match j
         case Null => c == 110
         case False => c == 102
         case True => c == 116
         case Number(_) => c == MINUS || DigitByte(c)
         case String(_) => c == QUOTE
         case Array(_) => c == OPEN_ARRAY
         case Object(_) => c == OPEN_OBJECT
  {
    if j.Object? {
      assert Rendered(format, depth, j)[0] == OPEN_OBJECT;
    }
  }

  /** A value is about to be read at `off`: its text stands there, and nothing continues a number after it. */
  ghost predicate Prints(s: Bytes, off: nat, format: bool, depth: nat, j: Json) {
    Spelled(s, off, Rendered(format, depth, j)) && HasByteOrEnd(s, off + |Rendered(format, depth, j)|)
  }

  lemma StartsFirst(s: Bytes, off: nat, t: Str)
    requires StartsWith(s, off, t) && t != []
    ensures s[off] == t[0]
  {
    assert s[off..off + |t|][0] == t[0];
  }

  lemma NoLiteral(s: Bytes, off: nat)
    requires off < |s| && s[off] !in {110, 102, 116}
    ensures !StartsWith(s, off, NULL_TEXT) && !StartsWith(s, off, FALSE_TEXT) && !StartsWith(s, off, TRUE_TEXT)
  {
    if StartsWith(s, off, NULL_TEXT) { StartsFirst(s, off, NULL_TEXT); }
    if StartsWith(s, off, FALSE_TEXT) { StartsFirst(s, off, FALSE_TEXT); }
    if StartsWith(s, off, TRUE_TEXT) { StartsFirst(s, off, TRUE_TEXT); }
  }

  /** How the first byte decides what is read. */
  lemma ReadBy(s: Bytes, off: nat, depth: nat)
    requires off < |s| && s[off] !in {110, 102, 116}
    ensures s[off] == QUOTE ==>
      (ReadValue(s, off, depth) == match ReadString(s, off) case None => None case Some(t) => Some(Read(String(t.value), t.next)))
    ensures s[off] == MINUS || DigitByte(s[off]) ==> ReadValue(s, off, depth) == ReadNumber(s, off)
    ensures s[off] == OPEN_ARRAY ==> ReadValue(s, off, depth) == ReadArray(s, off, depth)
    ensures s[off] == OPEN_OBJECT ==> ReadValue(s, off, depth) == ReadObject(s, off, depth)
  {
    NoLiteral(s, off);
    hide StartsWith, ReadString, ReadNumber, ReadArray, ReadObject;
  }

  /** A printed value parses back, and parsing stops right after it. */
  lemma {:induction false} ValueReads(s: Bytes, off: nat, format: bool, d: nat, j: Json, depth: nat)
    requires Prints(s, off, format, d, j) && depth + Nesting(j) <= NESTING_LIMIT
    ensures ReadValue(s, off, depth) == Some(Read(j, off + |Rendered(format, d, j)|))
    decreases j, 0
  {
    hide ReadValue, ReadString, ReadNumber, ReadArray, ReadObject, Quoted, Integer, Nesting;
    var t := Rendered(format, d, j);
    FirstByte(format, d, j);
    assert s[off] == t[0];
    if j.Null? || j.True? || j.False? {
      LiteralReads(s, off, format, d, j, depth);
    } else {
      ReadBy(s, off, depth);
      match j {
        case Number(n) => IntegerReads(s, off, n);
        case String(x) => QuotedReads(s, off, x);
        case Array(items) => ArrayReads(s, off, format, d, items, depth);
        case Object(ms) => ObjectReads(s, off, format, d, ms, depth);
      }
    }
  }

  lemma LiteralReads(s: Bytes, off: nat, format: bool, d: nat, j: Json, depth: nat)
    requires Prints(s, off, format, d, j) && (j.Null? || j.True? || j.False?)
    ensures ReadValue(s, off, depth) == Some(Read(j, off + |Rendered(format, d, j)|))
  {
    var t := Rendered(format, d, j);
    SpelledText(s, off, t);
    assert s[off] == t[0];
    if StartsWith(s, off, NULL_TEXT) { StartsFirst(s, off, NULL_TEXT); }
    if StartsWith(s, off, FALSE_TEXT) { StartsFirst(s, off, FALSE_TEXT); }
  }

  // ---------- arrays

  lemma ItemsFirstByte(format: bool, d: nat, items: seq<Json>)
    requires items != []
    ensures var t := RenderedItems(format, d, items); t != [] && t[0] > 32 && t[0] != CLOSE_ARRAY
  {
    FirstByte(format, d, items[0]);
    assert RenderedItems(format, d, items)[0] == Rendered(format, d, items[0])[0];
  }

  /** The pieces of a printed array. */
  lemma ArrayPieces(s: Bytes, off: nat, inner: Str)
    requires Spelled(s, off, [OPEN_ARRAY] + inner + [CLOSE_ARRAY])
    ensures Spelled(s, off + 1, inner) && HasByte(s, off + 1 + |inner|, CLOSE_ARRAY)
    ensures inner != [] ==> s[off + 1] == inner[0]
  {
    SpelledSplit(s, off, [OPEN_ARRAY] + inner, [CLOSE_ARRAY]);
    SpelledSplit(s, off, [OPEN_ARRAY], inner);
    assert s[off + 1 + |inner|] == [CLOSE_ARRAY][0];
  }

  lemma NothingRendered(format: bool, d: nat)
    ensures RenderedItems(format, d, []) == []
  {
  }

  lemma {:induction false} ArrayReads(s: Bytes, off: nat, format: bool, d: nat, items: seq<Json>, depth: nat)
    requires Prints(s, off, format, d, Array(items)) && depth + Nesting(Array(items)) <= NESTING_LIMIT
    ensures ReadArray(s, off, depth) == Some(Read(Array(items), off + |Rendered(format, d, Array(items))|))
    decreases items, 2
  {
    hide ReadArray, ReadItems, ReadValue, Spelled, RenderedItems, Skip;
    var inner := RenderedItems(format, d + 1, items);
    NothingRendered(format, d + 1);
    ArrayPieces(s, off, inner);
    var close := off + 1 + |inner|;
    if items == [] {
      SkipIs(s, off + 1, close);
    } else {
      ItemsFirstByte(format, d + 1, items);
      SkipIs(s, off + 1, off + 1);
      ItemsRead(s, off + 1, off + 1, format, d + 1, items, depth + 1, close);
    }
    ArrayFromItems(s, off, depth, items, close);
  }

  lemma ArrayFromItems(s: Bytes, off: nat, depth: nat, items: seq<Json>, close: nat)
    requires off + 1 <= close < |s| && depth < NESTING_LIMIT && HasByte(s, close, CLOSE_ARRAY)
    requires if items == [] then close == off + 1 && Skip(s, off + 1) == close
             else Skip(s, off + 1) == off + 1 && s[off + 1] != CLOSE_ARRAY && ReadItems(s, off + 1, depth + 1) == Some(Read(items, close + 1))
    ensures ReadArray(s, off, depth) == Some(Read(Array(items), close + 1))
  {
    hide ReadItems;
  }

  ghost predicate Blank(s: Bytes, from: nat, end: nat) {
    end <= |s| && forall k :: from <= k < end ==> s[k] <= 32
  }

  /** The elements stand at p, with at most white space before them, and the bracket follows. */
  ghost predicate ItemsAt(s: Bytes, off: nat, p: nat, format: bool, d: nat, items: seq<Json>, end: nat) {
    && items != [] && Spelled(s, p, RenderedItems(format, d, items))
    && off <= p && Blank(s, off, p)
    && end == p + |RenderedItems(format, d, items)| && HasByte(s, end, CLOSE_ARRAY)
  }

  lemma ItemsStart(s: Bytes, off: nat, p: nat, format: bool, d: nat, items: seq<Json>, end: nat)
    requires ItemsAt(s, off, p, format, d, items, end)
    ensures Skip(s, off) == p
  {
    ItemsFirstByte(format, d, items);
    assert s[p] == RenderedItems(format, d, items)[0];
    SkipIs(s, off, p);
  }

  lemma OneItemPieces(s: Bytes, off: nat, p: nat, format: bool, d: nat, items: seq<Json>, end: nat)
    requires ItemsAt(s, off, p, format, d, items, end) && |items| == 1
    ensures Prints(s, p, format, d, items[0]) && end == p + |Rendered(format, d, items[0])| && Skip(s, end) == end
  {
    assert items[1..] == [];
    assert RenderedItems(format, d, items) == Rendered(format, d, items[0]);
    SkipIs(s, end, end);
  }

  /** The first of several elements, and where the others start. */
  lemma MoreItemsPieces(s: Bytes, off: nat, p: nat, format: bool, d: nat, items: seq<Json>, end: nat)
    requires ItemsAt(s, off, p, format, d, items, end) && |items| > 1
    ensures var next := p + |Rendered(format, d, items[0])|;
      && Prints(s, p, format, d, items[0]) && Skip(s, next) == next && HasByte(s, next, COMMA)
      && ItemsAt(s, next + 1, next + 1 + |When(format, [SPACE])|, format, d, items[1..], end)
  {
    hide Rendered;
    var first, blank, rest := Rendered(format, d, items[0]), When(format, [SPACE]), RenderedItems(format, d, items[1..]);
    CommaPieces(s, p, first, blank, rest, RenderedItems(format, d, items));
    SkipIs(s, p + |first|, p + |first|);
  }

  lemma CommaPieces(s: Bytes, p: nat, first: Str, blank: Str, rest: Str, t: Str)
    requires t == first + ([COMMA] + blank) + rest && Spelled(s, p, t) && forall k :: 0 <= k < |blank| ==> blank[k] <= 32
    ensures Spelled(s, p, first) && HasByte(s, p + |first|, COMMA)
    ensures Spelled(s, p + |first| + 1 + |blank|, rest)
    ensures Blank(s, p + |first| + 1, p + |first| + 1 + |blank|)
  {
    SpelledSplit(s, p, first + ([COMMA] + blank), rest);
    SpelledSplit(s, p, first, [COMMA] + blank);
    SpelledSplit(s, p + |first|, [COMMA], blank);
    assert s[p + |first|] == [COMMA][0];
    SpelledBlank(s, p + |first| + 1, blank);
  }

  lemma SpelledBlank(s: Bytes, p: nat, t: Str)
    requires Spelled(s, p, t) && forall k :: 0 <= k < |t| ==> t[k] <= 32
    ensures Blank(s, p, p + |t|)
  {
    forall k | p <= k < p + |t| ensures s[k] <= 32 {
      assert s[p + (k - p)] == t[k - p];
    }
  }

  lemma LastItem(s: Bytes, off: nat, depth: nat, x: Json, next: nat)
    requires off <= next < |s| && ReadValue(s, Skip(s, off), depth) == Some(Read(x, next))
    requires Skip(s, next) == next && HasByte(s, next, CLOSE_ARRAY)
    ensures ReadItems(s, off, depth) == Some(Read([x], next + 1))
  {
    hide ReadValue;
  }

  lemma NextItem(s: Bytes, off: nat, depth: nat, x: Json, next: nat, rest: seq<Json>, end: nat)
    requires off <= next < |s| && ReadValue(s, Skip(s, off), depth) == Some(Read(x, next))
    requires Skip(s, next) == next && HasByte(s, next, COMMA)
    requires ReadItems(s, next + 1, depth) == Some(Read(rest, end))
    ensures ReadItems(s, off, depth) == Some(Read([x] + rest, end))
  {
    hide ReadValue;
  }

  lemma {:induction false} ItemsRead(s: Bytes, off: nat, p: nat, format: bool, d: nat, items: seq<Json>, depth: nat,
        end: nat)
    requires ItemsAt(s, off, p, format, d, items, end)
    requires depth + NestingItems(items) <= NESTING_LIMIT
    ensures ReadItems(s, off, depth) == Some(Read(items, end + 1))
    decreases items, 1
  {
    hide ReadItems, ReadValue, Spelled, RenderedItems, Rendered, Skip;
    ItemsStart(s, off, p, format, d, items, end);
    var x, next := items[0], p + |Rendered(format, d, items[0])|;
    if |items| == 1 {
      OneItemPieces(s, off, p, format, d, items, end);
      ValueReads(s, p, format, d, x, depth);
      assert items == [x];
      LastItem(s, off, depth, x, next);
    } else {
      MoreItemsPieces(s, off, p, format, d, items, end);
      ValueReads(s, p, format, d, x, depth);
      ItemsRead(s, next + 1, next + 1 + |When(format, [SPACE])|, format, d, items[1..], depth, end);
      NextItem(s, off, depth, x, next, items[1..], end + 1);
      assert items == [x] + items[1..];
    }
  }

  // ---------- objects

  /** The members stand at p, and the brace follows them after white space. */
  ghost predicate MembersAt(s: Bytes, p: nat, format: bool, d: nat, ms: Members, end: nat) {
    && Spelled(s, p, RenderedMembers(format, d, ms))
    && p + |RenderedMembers(format, d, ms)| <= end && Blank(s, p + |RenderedMembers(format, d, ms)|, end)
    && HasByte(s, end, CLOSE_OBJECT)
  }

  lemma ObjectPieces(s: Bytes, off: nat, opening: Str, inner: Str, closing: Str)
    requires Spelled(s, off, [OPEN_OBJECT] + opening + inner + closing + [CLOSE_OBJECT])
    requires (forall k :: 0 <= k < |opening| ==> opening[k] <= 32) && (forall k :: 0 <= k < |closing| ==> closing[k] <= 32)
    ensures Blank(s, off + 1, off + 1 + |opening|)
    ensures Spelled(s, off + 1 + |opening|, inner)
    ensures var end := off + 1 + |opening| + |inner|;
      Blank(s, end, end + |closing|) && HasByte(s, end + |closing|, CLOSE_OBJECT)
  {
    var a := [OPEN_OBJECT] + opening;
    SpelledSplit(s, off, a + inner + closing, [CLOSE_OBJECT]);
    SpelledSplit(s, off, a + inner, closing);
    SpelledSplit(s, off, a, inner);
    SpelledSplit(s, off, [OPEN_OBJECT], opening);
    SpelledBlank(s, off + 1, opening);
    SpelledBlank(s, off + |a| + |inner|, closing);
    assert s[off + |a| + |inner| + |closing|] == [CLOSE_OBJECT][0];
  }

  lemma Indentation(format: bool, d: nat)
    ensures forall k :: 0 <= k < |When(format, [NEWLINE])| ==> When(format, [NEWLINE])[k] <= 32
    ensures forall k :: 0 <= k < |When(format, Tabs(d))| ==> When(format, Tabs(d))[k] <= 32
  {
  }

  /** Where the parts of a printed object stand: its members at p, its closing brace at end. */
  ghost predicate ObjectAt(s: Bytes, off: nat, format: bool, d: nat, ms: Members, p: nat, end: nat) {
    && Blank(s, off + 1, p) && Spelled(s, p, RenderedMembers(format, d + 1, ms))
    && Blank(s, p + |RenderedMembers(format, d + 1, ms)|, end) && HasByte(s, end, CLOSE_OBJECT)
    && off + |Rendered(format, d, Object(ms))| == end + 1
  }

  lemma ObjectLayout(s: Bytes, off: nat, format: bool, d: nat, ms: Members, p: nat, end: nat)
    requires Spelled(s, off, Rendered(format, d, Object(ms)))
    requires p == off + 1 + |When(format, [NEWLINE])|
    requires end == p + |RenderedMembers(format, d + 1, ms)| + |When(format, Tabs(d))|
    ensures ObjectAt(s, off, format, d, ms, p, end)
  {
    Indentation(format, d);
    hide RenderedMembers, Spelled, HasByte, When, Tabs, Blank;
    ObjectPieces(s, off, When(format, [NEWLINE]), RenderedMembers(format, d + 1, ms), When(format, Tabs(d)));
  }

  lemma {:induction false} ObjectReads(s: Bytes, off: nat, format: bool, d: nat, ms: Members, depth: nat)
    requires Prints(s, off, format, d, Object(ms)) && depth + Nesting(Object(ms)) <= NESTING_LIMIT
    ensures ReadObject(s, off, depth) == Some(Read(Object(ms), off + |Rendered(format, d, Object(ms))|))
    decreases ms, 4
  {
    if ms != [] {
      ObjectReadsSome(s, off, format, d, ms, depth);
      return;
    }
    hide ReadObject, ReadMembers, Spelled, Skip, Rendered, Tabs;
    var p := off + 1 + |When(format, [NEWLINE])|;
    var end := p + |RenderedMembers(format, d + 1, ms)| + |When(format, Tabs(d))|;
    ObjectLayout(s, off, format, d, ms, p, end);
    SkipIs(s, off + 1, end);
    ObjectFromMembers(s, off, depth, ms, end, end);
  }

  lemma {:induction false} ObjectReadsSome(s: Bytes, off: nat, format: bool, d: nat, ms: Members, depth: nat)
    requires Prints(s, off, format, d, Object(ms)) && depth + Nesting(Object(ms)) <= NESTING_LIMIT && ms != []
    ensures ReadObject(s, off, depth) == Some(Read(Object(ms), off + |Rendered(format, d, Object(ms))|))
    decreases ms, 3
  {
    hide ReadObject, ReadMembers, Spelled, Skip, Rendered, Tabs;
    var p := off + 1 + |When(format, [NEWLINE])|;
    var end := p + |RenderedMembers(format, d + 1, ms)| + |When(format, Tabs(d))|;
    ObjectLayout(s, off, format, d, ms, p, end);
    hide When, RenderedMembers;
    var first := p + |When(format, Tabs(d + 1))|;
    MembersStart(s, off + 1, p, format, d + 1, ms);
    MembersRead(s, first, p, format, d + 1, ms, depth + 1, end);
    ObjectFromMembers(s, off, depth, ms, first, end);
  }

  lemma HeadPieces(s: Bytes, p: nat, format: bool, d: nat, key: Str)
    requires Spelled(s, p, MemberHead(format, d, key))
    ensures var q := p + |When(format, Tabs(d))|;
      var colon := q + |Quoted(key)|;
      && Blank(s, p, q) && Spelled(s, q, Quoted(key)) && HasByte(s, colon, COLON)
      && Blank(s, colon + 1, p + |MemberHead(format, d, key)|)
      && p + |MemberHead(format, d, key)| == colon + 1 + |When(format, [TAB])|
  {
    hide Quoted;
    var a, b, c, e := When(format, Tabs(d)), Quoted(key), [COLON], When(format, [TAB]);
    SpelledSplit(s, p, a + b + c, e);
    SpelledSplit(s, p, a + b, c);
    SpelledSplit(s, p, a, b);
    SpelledBlank(s, p, a);
    SpelledBlank(s, p + |a| + |b| + 1, e);
    assert s[p + |a| + |b|] == c[0];
  }

  lemma TailPieces(s: Bytes, p: nat, format: bool, last: bool)
    requires Spelled(s, p, MemberTail(format, last))
    ensures !last ==> HasByte(s, p, COMMA)
    ensures Blank(s, p + |When(!last, [COMMA])|, p + |MemberTail(format, last)|)
  {
    var f, g := When(!last, [COMMA]), When(format, [NEWLINE]);
    SpelledSplit(s, p, f, g);
    SpelledBlank(s, p + |f|, g);
    assert !last ==> s[p] == f[0];
  }

  lemma QuotedFirst(s: Bytes, q: nat, t: Str)
    requires Spelled(s, q, Quoted(t))
    ensures HasByte(s, q, QUOTE) && |Quoted(t)| >= 2
  {
    assert s[q] == Quoted(t)[0];
  }

  /** What `ReadMember` finds: the name, its colon and the value, each after white space. */
  lemma MemberFromPieces(s: Bytes, off: nat, depth: nat, key: Str, q: nat, colon: nat, value: nat, v: Json, next: nat)
    requires off <= q < colon < value <= next <= |s|
    requires Skip(s, off) == q && ReadString(s, q) == Some(Read(key, colon)) && HasByte(s, colon, COLON)
    requires Skip(s, colon + 1) == value && ReadValue(s, value, depth) == Some(Read(v, next))
    ensures ReadMember(s, off, depth) == Some(Read(Member(key, v), next))
  {
    hide ReadValue, ReadString;
    SkipIs(s, colon, colon);
  }

  lemma {:induction false} MemberReads(s: Bytes, off: nat, p: nat, format: bool, d: nat, m: Member<Json>, depth: nat,
        next: nat)
    requires off <= |s| && off <= Skip(s, off) == p + |When(format, Tabs(d))|
    requires Spelled(s, p, MemberHead(format, d, m.key)) && next == p + |MemberHead(format, d, m.key)|
    requires Prints(s, next, format, d, m.value) && depth + Nesting(m.value) <= NESTING_LIMIT
    ensures ReadMember(s, off, depth) == Some(Read(m, next + |Rendered(format, d, m.value)|))
    decreases m, 1
  {
    hide Quoted, Rendered, ReadMember, ReadValue, ReadString, MemberHead, Spelled;
    HeadPieces(s, p, format, d, m.key);
    var q := p + |When(format, Tabs(d))|;
    var colon := q + |Quoted(m.key)|;
    QuotedFirst(s, q, m.key);
    QuotedReads(s, q, m.key);
    ValueStart(s, next, format, d, m.value);
    SkipIs(s, colon + 1, next);
    ValueReads(s, next, format, d, m.value, depth);
    MemberFromPieces(s, off, depth, m.key, q, colon, next, m.value, next + |Rendered(format, d, m.value)|);
  }

  lemma ValueStart(s: Bytes, p: nat, format: bool, d: nat, j: Json)
    requires Prints(s, p, format, d, j)
    ensures p < |s| && s[p] > 32
  {
    FirstByte(format, d, j);
    assert s[p] == Rendered(format, d, j)[0];
  }

  /** Skipping white space from before a printed member list stops at its first quote. */
  lemma MembersStart(s: Bytes, off: nat, p: nat, format: bool, d: nat, ms: Members)
    requires ms != [] && Spelled(s, p, RenderedMembers(format, d, ms)) && off <= p && Blank(s, off, p)
    ensures var q := p + |When(format, Tabs(d))|;
      HasByte(s, q, QUOTE) && Skip(s, off) == q && Skip(s, q) == q
  {
    hide Rendered, MemberHead;
    var head := MemberHead(format, d, ms[0].key);
    var rest := Rendered(format, d, ms[0].value) + MemberTail(format, |ms| == 1) + RenderedMembers(format, d, ms[1..]);
    assert RenderedMembers(format, d, ms) == head + rest;
    SpelledSplit(s, p, head, rest);
    HeadPieces(s, p, format, d, ms[0].key);
    var q := p + |When(format, Tabs(d))|;
    QuotedFirst(s, q, ms[0].key);
    SkipIs(s, off, q);
    SkipIs(s, q, q);
  }

  /** The first of the members, and where the others start. */
  lemma MembersPieces(s: Bytes, p: nat, format: bool, d: nat, ms: Members, end: nat)
    requires ms != [] && MembersAt(s, p, format, d, ms, end)
    ensures var value := p + |MemberHead(format, d, ms[0].key)|;
      var after := value + |Rendered(format, d, ms[0].value)|;
      && Spelled(s, p, MemberHead(format, d, ms[0].key)) && Prints(s, value, format, d, ms[0].value)
      && (|ms| == 1 ==> Skip(s, after) == end)
      && (|ms| > 1 ==>
           && Skip(s, after) == after && HasByte(s, after, COMMA)
           && MembersAt(s, after + |MemberTail(format, false)|, format, d, ms[1..], end)
           && Blank(s, after + 1, after + |MemberTail(format, false)|))
  {
    hide Rendered, MemberHead, SkipFrom, Spelled, MemberTail;
    var last := |ms| == 1;
    MembersLayout(s, p, format, d, ms, end);
    var after := p + |MemberHead(format, d, ms[0].key)| + |Rendered(format, d, ms[0].value)|;
    hide RenderedMembers, Rendered;
    TailPieces(s, after, format, last);
    if last {
      assert ms[1..] == [];
      LastTail(s, after, format, d, end);
      SkipIs(s, after, end);
    } else {
      SkipIs(s, after, after);
    }
  }

  /** The four pieces of a member list, each where it stands. */
  lemma MembersLayout(s: Bytes, p: nat, format: bool, d: nat, ms: Members, end: nat)
    requires ms != [] && MembersAt(s, p, format, d, ms, end)
    ensures var value := p + |MemberHead(format, d, ms[0].key)|;
      var after := value + |Rendered(format, d, ms[0].value)|;
      var next := after + |MemberTail(format, |ms| == 1)|;
      && Spelled(s, p, MemberHead(format, d, ms[0].key)) && Spelled(s, value, Rendered(format, d, ms[0].value))
      && Spelled(s, after, MemberTail(format, |ms| == 1)) && MembersAt(s, next, format, d, ms[1..], end)
  {
    hide Rendered, MemberHead, MemberTail;
    var head, body, tail, rest := MemberHead(format, d, ms[0].key), Rendered(format, d, ms[0].value),
      MemberTail(format, |ms| == 1), RenderedMembers(format, d, ms[1..]);
    assert RenderedMembers(format, d, ms) == head + body + tail + rest;
    hide RenderedMembers;
    SpelledSplit(s, p, head + body + tail, rest);
    SpelledSplit(s, p, head + body, tail);
    SpelledSplit(s, p, head, body);
  }

  /** Behind the last member there is white space up to the bracket. */
  lemma LastTail(s: Bytes, after: nat, format: bool, d: nat, end: nat)
    requires MembersAt(s, after + |MemberTail(format, true)|, format, d, [], end)
    requires Blank(s, after, after + |MemberTail(format, true)|)
    ensures Blank(s, after, end)
  {
    assert RenderedMembers(format, d, []) == [];
  }

  lemma LastMember(s: Bytes, off: nat, depth: nat, m: Member<Json>, next: nat, end: nat)
    requires off <= next <= end < |s| && ReadMember(s, off, depth) == Some(Read(m, next))
    requires Skip(s, next) == end && HasByte(s, end, CLOSE_OBJECT)
    ensures ReadMembers(s, off, depth) == Some(Read([m], end + 1))
  {
    hide ReadMember;
  }

  lemma NextMember(s: Bytes, off: nat, depth: nat, m: Member<Json>, next: nat, rest: Members, end: nat)
    requires off <= next < |s| && ReadMember(s, off, depth) == Some(Read(m, next))
    requires Skip(s, next) == next && HasByte(s, next, COMMA)
    requires ReadMembers(s, next + 1, depth) == Some(Read(rest, end))
    ensures ReadMembers(s, off, depth) == Some(Read([m] + rest, end))
  {
    hide ReadMember;
  }

  lemma {:induction false} MembersRead(s: Bytes, off: nat, p: nat, format: bool, d: nat, ms: Members, depth: nat,
        end: nat)
    requires ms != [] && MembersAt(s, p, format, d, ms, end)
    requires off <= |s| && Skip(s, off) == p + |When(format, Tabs(d))|
    requires depth + NestingMembers(ms) <= NESTING_LIMIT
    ensures ReadMembers(s, off, depth) == Some(Read(ms, end + 1))
    decreases ms, 2
  {
    hide ReadMembers, ReadMember, Spelled, RenderedMembers, Rendered, Skip, MemberHead;
    MembersPieces(s, p, format, d, ms, end);
    var value := p + |MemberHead(format, d, ms[0].key)|;
    var after := value + |Rendered(format, d, ms[0].value)|;
    MemberReads(s, off, p, format, d, ms[0], depth, value);
    if |ms| == 1 {
      assert ms == [ms[0]];
      LastMember(s, off, depth, ms[0], after, end);
    } else {
      var next := after + |MemberTail(format, false)|;
      MembersStart(s, after + 1, next, format, d, ms[1..]);
      MembersRead(s, after + 1, next, format, d, ms[1..], depth, end);
      NextMember(s, off, depth, ms[0], after, ms[1..], end + 1);
      assert ms == [ms[0]] + ms[1..];
    }
  }

  /** An object is read from its opening brace, with the members starting at the first quote. */
  lemma ObjectFromMembers(s: Bytes, off: nat, depth: nat, ms: Members, first: nat, end: nat)
    requires off + 1 <= first <= end < |s| && depth < NESTING_LIMIT && HasByte(s, end, CLOSE_OBJECT)
    requires Skip(s, off + 1) == first
    requires if ms == [] then first == end
             else s[first] == QUOTE && ReadMembers(s, first, depth + 1) == Some(Read(ms, end + 1))
    ensures ReadObject(s, off, depth) == Some(Read(Object(ms), end + 1))
  {
    hide ReadMembers;
  }

  // ---------- whole documents

  /** `cJSON_Parse` hands the parser the text with its terminating zero. */
  function Terminated(t: Str): Bytes {
    var text: Bytes := t;
    text + [0]
  }

  lemma AtStart(s: Bytes, t: Str)
    requires |s| >= |t| && s[..|t|] == t
    ensures Spelled(s, 0, t)
  {
    forall k | 0 <= k < |t| ensures s[k] == t[k] {
      assert s[..|t|][k] == t[k];
    }
  }

  /**
   * Print then parse is the identity: a printed tree that nests no deeper than the limit parses back to itself,
   * members in order and duplicates kept, and parsing stops right after the text. With the terminator
   * required the result is the same.
   */
  lemma PrintThenParse(format: bool, j: Json, requireTerminated: bool)
    requires Nesting(j) <= NESTING_LIMIT
    ensures ReadDocument(Terminated(Rendered(format, 0, j)), requireTerminated) == Some(Read(j, |Rendered(format, 0, j)|))
    ensures ReadDocument(Rendered(format, 0, j), false) == Some(Read(j, |Rendered(format, 0, j)|))
  {
    var t := Rendered(format, 0, j);
    DocumentReads(t, format, j);
    DocumentReads(Terminated(t), format, j);
  }

  lemma DocumentReads(s: Bytes, format: bool, j: Json)
    requires Nesting(j) <= NESTING_LIMIT
    requires s == Rendered(format, 0, j) || s == Terminated(Rendered(format, 0, j))
    ensures ReadDocument(s, false) == Some(Read(j, |Rendered(format, 0, j)|))
    ensures s == Terminated(Rendered(format, 0, j)) ==> ReadDocument(s, true) == Some(Read(j, |Rendered(format, 0, j)|))
  {
    hide ReadValue, Rendered, Nesting;
    var t := Rendered(format, 0, j);
    assert s[..|t|] == t;
    AtStart(s, t);
    FirstByte(format, 0, j);
    assert s[0] == t[0];
    if |s| > 4 && s[..3] == BOM { assert s[..3][0] == 0xEF; }
    SkipIs(s, 0, 0);
    ValueReads(s, 0, format, 0, j, 0);
    if s == Terminated(t) { assert SkipFrom(s, |t|) == |s|; }
  }
}
