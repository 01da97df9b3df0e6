/** The text of a JSON tree, as the printing functions define it. */
module Print {
  import opened Text
  import opened Json

  const QUOTE: cchar := 34
  const BACKSLASH: cchar := 92
  const COMMA: cchar := 44
  const COLON: cchar := 58
  const OPEN_ARRAY: cchar := 91
  const CLOSE_ARRAY: cchar := 93
  const OPEN_OBJECT: cchar := 123
  const CLOSE_OBJECT: cchar := 125
  const MINUS: cchar := 45
  const SPACE: cchar := 32
  const TAB: cchar := 9
  const NEWLINE: cchar := 10
  const LETTER_U: cchar := 117

  const NULL_TEXT: Str := [110, 117, 108, 108]
  const FALSE_TEXT: Str := [102, 97, 108, 115, 101]
  const TRUE_TEXT: Str := [116, 114, 117, 101]

  function HexDigit(n: nat): cchar
    requires n < 16
  {
    if n < 10 then 48 + n else 87 + n
  }

  /** One character of a string literal. */
  function EscapeChar(c: cchar): (e: Str)
    ensures 1 <= |e| <= 6
  {
    if c == 34 then [BACKSLASH, QUOTE]
    else if c == 92 then [BACKSLASH, BACKSLASH]
    else if c == 8 then [BACKSLASH, 98]
    else if c == 12 then [BACKSLASH, 102]
    else if c == 10 then [BACKSLASH, 110]
    else if c == 13 then [BACKSLASH, 114]
    else if c == 9 then [BACKSLASH, 116]
    else if c < 32 then [BACKSLASH, LETTER_U, 48, 48, HexDigit(c / 16), HexDigit(c % 16)]
    else [c]
  }

  function EscapeFrom(s: Str, i: nat): Str
    requires i <= |s|
    decreases |s| - i
  {
    if i == |s| then [] else EscapeChar(s[i]) + EscapeFrom(s, i + 1)
  }

  /** Section 7 of RFC 8259. */
  function Quoted(s: Str): Str {
    [QUOTE] + EscapeFrom(s, 0) + [QUOTE]
  }

  function Integer(n: int): Str {
    if n < 0 then [MINUS] + Decimal(-n) else Decimal(n)
  }

  lemma {:induction false} DecimalShort(n: nat, digits: nat)
    requires n < Power10(digits) && digits > 0
    ensures |Decimal(n)| <= digits
  {
    if n >= 10 { DecimalShort(n / 10, digits - 1); }
  }

  function Power10(k: nat): nat {
    if k == 0 then 1 else 10 * Power10(k - 1)
  }

  lemma IntegerShort(n: int32)
    ensures 1 <= |Integer(n)| <= 11
  {
    var m: int := n;
    assert Power10(10) == 10_000_000_000;
    DecimalShort(if m < 0 then -m else m, 10);
  }

  function Tabs(n: nat): (t: Str)
    ensures |t| == n && forall k :: 0 <= k < n ==> t[k] == TAB
  {
    seq(n, _ => TAB)
  }

  function When(condition: bool, t: Str): Str {
    if condition then t else []
  }

  /** The text of a tree met at the given nesting depth, formatted or not. */
  function Rendered(format: bool, depth: nat, j: Json): Str
    decreases j
  {
    match j
    case Null => NULL_TEXT
    case False => FALSE_TEXT
    case True => TRUE_TEXT
    case Number(n) => Integer(n)
    case String(s) => Quoted(s)
    case Array(items) => [OPEN_ARRAY] + RenderedItems(format, depth + 1, items) + [CLOSE_ARRAY]
    case Object(ms) =>
      [OPEN_OBJECT] + When(format, [NEWLINE]) + RenderedMembers(format, depth + 1, ms) + When(format, Tabs(depth)) + [CLOSE_OBJECT]
  }

  function RenderedItems(format: bool, depth: nat, items: seq<Json>): Str
    decreases items
  {
    if items == [] then []
    else
      Rendered(format, depth, items[0])
      + When(|items| > 1, [COMMA] + When(format, [SPACE]))
      + RenderedItems(format, depth, items[1..])
  }

  function RenderedMembers(format: bool, depth: nat, ms: Members): Str
    decreases ms
  {
    if ms == [] then []
    else
      RenderedMember(format, depth, ms[0], |ms| == 1) + RenderedMembers(format, depth, ms[1..])
  }

  /** What comes before the value of a member. */
  function MemberHead(format: bool, depth: nat, key: Str): Str {
    When(format, Tabs(depth)) + Quoted(key) + [COLON] + When(format, [TAB])
  }

  /** What comes after it. */
  function MemberTail(format: bool, last: bool): Str {
    When(!last, [COMMA]) + When(format, [NEWLINE])
  }

  function RenderedMember(format: bool, depth: nat, m: Member<Json>, last: bool): Str
    decreases m
  {
    MemberHead(format, depth, m.key) + Rendered(format, depth, m.value) + MemberTail(format, last)
  }

  /** How deeply arrays and objects nest. */
  function Nesting(j: Json): nat
    decreases j
  {
    match j
    case Array(items) => 1 + NestingItems(items)
    case Object(ms) => 1 + NestingMembers(ms)
    case _ => 0
  }

  function Max(a: nat, b: nat): nat {
    if a < b then b else a
  }

  function NestingItems(items: seq<Json>): nat
    decreases items
  {
    if items == [] then 0 else Max(Nesting(items[0]), NestingItems(items[1..]))
  }

  function NestingMembers(ms: Members): nat
    decreases ms
  {
    if ms == [] then 0 else Max(Nesting(ms[0].value), NestingMembers(ms[1..]))
  }
}
