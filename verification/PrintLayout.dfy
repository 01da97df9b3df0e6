/** What a print looks like: escapes, separators and indentation, in the characters themselves. */
module PrintLayout {
  import opened Text
  import opened Json
  import opened Print

  /** Section 7 of RFC 8259: the short escapes. */
  lemma ShortEscapes()
    ensures EscapeChar(34) == Ascii("\\\"") && EscapeChar(92) == Ascii("\\\\")
    ensures EscapeChar(8) == Ascii("\\b") && EscapeChar(12) == Ascii("\\f") && EscapeChar(10) == Ascii("\\n")
    ensures EscapeChar(13) == Ascii("\\r") && EscapeChar(9) == Ascii("\\t")
  {
  }

  /** Other control characters are written "\\u00" and two digits, and all other characters as they are. */
  lemma OtherEscapes(c: cchar)
    ensures c < 32 && c !in {8, 9, 10, 12, 13} ==>
      EscapeChar(c) == Ascii("\\u00") + [HexChar(c / 16), HexChar(c % 16)]
    ensures c >= 32 && c != 34 && c != 92 ==> EscapeChar(c) == [c]
  {
    assert Ascii("\\u00") == [92, 117, 48, 48];
  }

  function HexChar(v: nat): cchar
    requires v < 16
  {
    "0123456789abcdef"[v] as int
  }

  lemma WordTexts()
    ensures NULL_TEXT == Ascii("null") && TRUE_TEXT == Ascii("true") && FALSE_TEXT == Ascii("false")
  {
  }

  /** Parts with a separator between them. */
  function Joined(parts: seq<Str>, separator: Str): Str {
    if parts == [] then []
    else if |parts| == 1 then parts[0]
    else parts[0] + separator + Joined(parts[1..], separator)
  }

  function ItemTexts(format: bool, depth: nat, items: seq<Json>): (r: seq<Str>)
    ensures |r| == |items|
    ensures forall i :: 0 <= i < |items| ==> r[i] == Rendered(format, depth, items[i])
  {
    seq(|items|, i requires 0 <= i < |items| => Rendered(format, depth, items[i]))
  }

  /** A member's own line: tabs, key, colon and tab, value. */
  function MemberLine(format: bool, depth: nat, m: Member<Json>): Str {
    if format then seq(depth, _ => 9) + Quoted(m.key) + Ascii(":\t") + Rendered(true, depth, m.value)
    else Quoted(m.key) + Ascii(":") + Rendered(false, depth, m.value)
  }

  function MemberLines(format: bool, depth: nat, ms: Members): (r: seq<Str>)
    ensures |r| == |ms|
    ensures forall i :: 0 <= i < |ms| ==> r[i] == MemberLine(format, depth, ms[i])
  {
    seq(|ms|, i requires 0 <= i < |ms| => MemberLine(format, depth, ms[i]))
  }

  lemma {:induction false} ItemsJoined(format: bool, depth: nat, items: seq<Json>)
    ensures RenderedItems(format, depth, items)
         == Joined(ItemTexts(format, depth, items), if format then Ascii(", ") else Ascii(","))
  {
    if items != [] {
      ItemsJoined(format, depth, items[1..]);
      hide Rendered;
      var comma: Str := if format then Ascii(", ") else Ascii(",");
      assert comma == [COMMA] + When(format, [SPACE]);
      assert ItemTexts(format, depth, items)[1..] == ItemTexts(format, depth, items[1..]);
      if |items| == 1 { assert RenderedItems(format, depth, items[1..]) == []; }
    }
  }

  /** An array: its items in order, a comma between any two, and a space behind each comma of a formatted print. */
  lemma ArrayLayout(format: bool, depth: nat, items: seq<Json>)
    ensures Rendered(format, depth, Array(items))
         == Ascii("[") + Joined(ItemTexts(format, depth + 1, items), if format then Ascii(", ") else Ascii(",")) + Ascii("]")
  {
    ItemsJoined(format, depth + 1, items);
    hide ItemTexts, RenderedItems, Joined;
    assert Ascii("[") == [OPEN_ARRAY] && Ascii("]") == [CLOSE_ARRAY];
  }

  /** What stands between two members, and behind the last. */
  function Between(format: bool): Str {
    if format then Ascii(",\n") else Ascii(",")
  }

  function Break(format: bool): Str {
    if format then Ascii("\n") else []
  }

  lemma BetweenIs(format: bool)
    ensures Between(format) == [COMMA] + Break(format) && Break(format) == When(format, [NEWLINE])
  {
  }

  lemma LineIs(format: bool, depth: nat, m: Member<Json>, last: bool)
    ensures RenderedMember(format, depth, m, last)
         == MemberLine(format, depth, m) + (if last then Break(format) else Between(format))
  {
    hide Rendered, Quoted, Between, Break;
    BetweenIs(format);
    assert Ascii(":\t") == [COLON, TAB] && Ascii(":") == [COLON];
    assert Tabs(depth) == seq(depth, _ => 9);
  }

  lemma LinesRest(format: bool, depth: nat, ms: Members)
    requires ms != []
    ensures MemberLines(format, depth, ms)[0] == MemberLine(format, depth, ms[0])
    ensures MemberLines(format, depth, ms)[1..] == MemberLines(format, depth, ms[1..])
    ensures RenderedMembers(format, depth, ms)
         == RenderedMember(format, depth, ms[0], |ms| == 1) + RenderedMembers(format, depth, ms[1..])
    ensures RenderedMembers(format, depth, []) == []
  {
    hide MemberLine, RenderedMember;
  }

  lemma {:induction false} MembersJoined(format: bool, depth: nat, ms: Members)
    requires ms != []
    ensures RenderedMembers(format, depth, ms) == Joined(MemberLines(format, depth, ms), Between(format)) + Break(format)
  {
    hide RenderedMembers, RenderedMember, MemberLine, MemberLines, Between, Break;
    LinesRest(format, depth, ms);
    LineIs(format, depth, ms[0], |ms| == 1);
    if |ms| == 1 {
      assert ms[1..] == [];
    } else {
      MembersJoined(format, depth, ms[1..]);
      var line, rest := MemberLine(format, depth, ms[0]), Joined(MemberLines(format, depth, ms[1..]), Between(format));
      assert line + Between(format) + (rest + Break(format)) == line + Between(format) + rest + Break(format);
    }
  }

  lemma NoLines(format: bool, depth: nat)
    ensures RenderedMembers(format, depth, []) == [] && Joined(MemberLines(format, depth, []), Between(format)) == []
  {
  }

  /** Every member of a formatted object has a line of its own, one tab deeper than the line its closing brace is on. */
  lemma FormattedLayout(depth: nat, ms: Members)
    ensures Rendered(true, depth, Object(ms))
         == Ascii("{\n") + Joined(MemberLines(true, depth + 1, ms), Ascii(",\n"))
          + (if ms == [] then [] else Ascii("\n")) + seq(depth, _ => 9) + Ascii("}")
  {
    if ms == [] { NoLines(true, depth + 1); } else { MembersJoined(true, depth + 1, ms); }
    assert Tabs(depth) == seq(depth, _ => 9);
    assert Ascii("{\n") == [OPEN_OBJECT] + [NEWLINE] && Ascii("}") == [CLOSE_OBJECT];
    hide MemberLines, Joined, RenderedMembers;
    var lines := Joined(MemberLines(true, depth + 1, ms), Between(true));
    var inner := RenderedMembers(true, depth + 1, ms);
    assert inner == lines + (if ms == [] then [] else Ascii("\n"));
    assert Rendered(true, depth, Object(ms)) == [OPEN_OBJECT] + [NEWLINE] + inner + Tabs(depth) + [CLOSE_OBJECT];
  }

  lemma PlainObject(depth: nat, ms: Members)
    ensures Rendered(false, depth, Object(ms)) == [OPEN_OBJECT] + RenderedMembers(false, depth + 1, ms) + [CLOSE_OBJECT]
  {
    hide RenderedMembers;
  }

  /** Unformatted there is nothing but the braces, the members and a comma between any two. */
  lemma PlainLayout(depth: nat, ms: Members)
    ensures Rendered(false, depth, Object(ms))
         == Ascii("{") + Joined(MemberLines(false, depth + 1, ms), Ascii(",")) + Ascii("}")
  {
    hide MemberLines, RenderedMembers, Rendered, Joined;
    if ms == [] { NoLines(false, depth + 1); } else { MembersJoined(false, depth + 1, ms); }
    PlainObject(depth, ms);
    var lines := Joined(MemberLines(false, depth + 1, ms), Between(false));
    assert lines + Break(false) == lines;
    assert Ascii("{") == [OPEN_OBJECT] && Ascii("}") == [CLOSE_OBJECT];
  }
}
