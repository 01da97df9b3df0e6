/** The printer as it runs: a growing or fixed buffer whose offset is sometimes recovered by measuring the text. */
module PrintCode {
  import opened Text
  import opened Json
  import opened Print

  const INT_MAX := 0x7FFF_FFFF

  /** The escaped form of the first i characters. */
  function EscapeTo(s: Str, i: nat): (e: Str)
    requires i <= |s|
  {
    if i == 0 then [] else EscapeTo(s, i - 1) + EscapeChar(s[i - 1])
  }

  lemma {:induction false} EscapeMeets(s: Str, i: nat)
    requires i <= |s|
    ensures EscapeTo(s, i) + EscapeFrom(s, i) == EscapeFrom(s, 0)
  {
    hide EscapeChar;
    if i > 0 {
      EscapeMeets(s, i - 1);
      assert EscapeTo(s, i - 1) + (EscapeChar(s[i - 1]) + EscapeFrom(s, i)) == EscapeTo(s, i) + EscapeFrom(s, i);
    }
  }

  lemma EscapeStarts(s: Str)
    ensures EscapeTo(s, 0) == []
  {
  }

  lemma EscapeFits(s: Str, i: nat)
    requires i < |s|
    ensures EscapeTo(s, i + 1) == EscapeTo(s, i) + EscapeChar(s[i])
    ensures |EscapeTo(s, i + 1)| <= |EscapeFrom(s, 0)|
  {
    EscapeMeets(s, i + 1);
  }

  lemma EscapeWhole(s: Str)
    ensures EscapeTo(s, |s|) == EscapeFrom(s, 0)
  {
    EscapeMeets(s, |s|);
  }

  lemma {:induction false} EscapeGrows(s: Str, i: nat)
    requires i <= |s|
    ensures |EscapeTo(s, i)| >= i
    ensures |EscapeTo(s, i)| == i ==> EscapeTo(s, i) == s[..i]
  {
    if i > 0 {
      EscapeGrows(s, i - 1);
      assert s[..i] == s[..i - 1] + [s[i - 1]];
    }
  }

  /** `printbuffer`. */
  class PrintBuffer {
    var buffer: array<byte>
    var offset: nat
    var depth: nat
    const noalloc: bool
    const format: bool

    /** How large the buffer can ever get. */
    function Capacity(): nat
      reads this
    {
      if noalloc then buffer.Length else INT_MAX
    }

    constructor (buffer: array<byte>, noalloc: bool, format: bool)
      ensures this.buffer == buffer && offset == 0 && depth == 0
      ensures this.noalloc == noalloc && this.format == format
    {
      this.buffer, offset, depth := buffer, 0, 0;
      this.noalloc, this.format := noalloc, format;
    }

    /** The text stands at the front of the buffer and the offset is at its end. */
    ghost predicate Holds(text: seq<byte>)
      reads this`buffer, this`offset, buffer
    {
      offset == |text| <= buffer.Length <= INT_MAX
      && (offset == buffer.Length ==> offset == 0)
      && buffer[..offset] == text
    }

    /** The text with its terminating zero is in the buffer, the offset somewhere in its second part. */
    ghost predicate Written(base: seq<byte>, t: Str)
      reads this`buffer, this`offset, buffer
    {
      |base| <= offset <= |base| + |t| < buffer.Length <= INT_MAX
      && buffer[..|base| + |t|] == base + t
      && buffer[|base| + |t|] == 0
    }

    /** The buffer was kept or reallocated, and its limit is unchanged. */
    twostate predicate Kept()
      reads this
    {
      (buffer == old(buffer) || fresh(buffer)) && (noalloc ==> buffer == old(buffer))
    }

    /** `ensure`, with `realloc` available. */
    method Ensure(needed: nat, ghost text: seq<byte>) returns (ok: bool)
      requires Holds(text)
      modifies this`buffer
      ensures Holds(text) && Kept()
      ensures ok <==> offset + needed + 1 <= Capacity()
      ensures ok ==> offset + needed < buffer.Length
    {
      if buffer.Length > 0 && offset >= buffer.Length {
        return false;
      }
      if needed > INT_MAX {
        return false;
      }
      var total := needed + offset + 1;
      if total <= buffer.Length {
        return true;
      }
      if noalloc {
        return false;
      }
      var newsize;
      if total > INT_MAX / 2 {
        if total <= INT_MAX {
          newsize := INT_MAX;
        } else {
          return false;
        }
      } else {
        newsize := total * 2;
      }
      var newbuffer := new byte[newsize];
      for i := 0 to buffer.Length
        invariant buffer == old(buffer) && newbuffer.Length == newsize > buffer.Length
        invariant newbuffer[..i] == buffer[..i]
      {
        newbuffer[i] := buffer[i];
      }
      assert newbuffer[..offset] == newbuffer[..buffer.Length][..offset] == buffer[..buffer.Length][..offset] == text;
      buffer := newbuffer;
      return true;
    }

    /** `update_offset`: the offset moves to the terminating zero. */
    method UpdateOffset(ghost base: seq<byte>, ghost t: Str)
      requires Written(base, t)
      modifies this`offset
      ensures Holds(base + t) && buffer[offset] == 0
    {
      ghost var end := |base| + |t|;
      forall k | |base| <= k < end ensures buffer[k] != 0 {
        assert buffer[k] == buffer[..end][k] == t[k - |base|];
      }
      while buffer[offset] != 0
        invariant |base| <= offset <= end
        decreases end - offset
      {
        offset := offset + 1;
      }
    }

    /** Characters and no terminator, as `memcpy` and the single assignments write them. */
    method Put(at: nat, t: Str)
      requires at + |t| <= buffer.Length
      modifies buffer
      ensures buffer[..at + |t|] == old(buffer[..at]) + t
    {
      for i := 0 to |t|
        invariant buffer[..at + i] == old(buffer[..at]) + t[..i]
      {
        buffer[at + i] := t[i];
      }
    }

    method PutChar(at: nat, c: cchar)
      requires at < buffer.Length
      modifies buffer
      ensures buffer[..at + 1] == old(buffer[..at]) + [c]
    {
      buffer[at] := c;
    }

    /** The text and its zero behind what the buffer holds. */
    method Terminate(t: Str, ghost base: seq<byte>)
      requires Holds(base) && |base| + |t| < buffer.Length
      modifies buffer
      ensures Written(base, t) && Kept()
    {
      Put(offset, t);
      buffer[offset + |t|] := 0;
      assert buffer[..offset + |t|] == base + t;
    }

    /** A short text in one piece, leaving the offset alone. */
    method PrintText(t: Str, ghost base: seq<byte>) returns (ok: bool)
      requires Holds(base)
      modifies this`buffer, buffer
      ensures Kept() && depth == old(depth)
      ensures ok <==> |base| + |t| + 2 <= old(Capacity())
      ensures ok ==> Written(base, t)
    {
      ok := Ensure(|t| + 1, base);
      if ok {
        Terminate(t, base);
      }
    }

    /** A piece of punctuation that asks for `room` bytes and moves the offset over itself. */
    method PrintPiece(t: Str, room: nat, ghost base: seq<byte>) returns (ok: bool)
      requires Holds(base) && |t| <= room
      modifies this, buffer
      ensures Kept() && depth == old(depth)
      ensures ok <==> |base| + room + 1 <= old(Capacity())
      ensures ok ==> Holds(base + t)
    {
      ok := Ensure(room, base);
      if ok {
        Put(offset, t);
        offset := offset + |t|;
      }
    }

    /** `print_number`, for the integers of this model. */
    method PrintNumber(n: int32, ghost base: seq<byte>) returns (ok: bool)
      requires Holds(base)
      modifies this, buffer
      ensures Kept() && depth == old(depth)
      ensures ok <==> |base| + |Integer(n)| + 2 <= old(Capacity())
      ensures ok ==> Written(base, Integer(n))
    {
      var text := Integer(n);
      IntegerShort(n);
      assert |text| <= 25; // the temporary buffer is large enough
      ok := Ensure(|text| + 1, base);
      if ok {
        Terminate(text, base);
        offset := offset + |text|;
      }
    }

    /** One character of a string literal, and where the next one goes. */
    method EscapeOne(c: cchar, at: nat) returns (next: nat)
      requires at + |EscapeChar(c)| <= buffer.Length
      modifies buffer
      ensures next == at + |EscapeChar(c)|
      ensures buffer[..next] == old(buffer[..at]) + EscapeChar(c)
    {
      if c > 31 && c != QUOTE && c != BACKSLASH {
        buffer[at] := c;
        next := at + 1;
        return;
      }
      buffer[at] := BACKSLASH;
      next := at + 2;
      if c == BACKSLASH || c == QUOTE {
        buffer[at + 1] := c;
      } else if c == 8 {
        buffer[at + 1] := 98;
      } else if c == 12 {
        buffer[at + 1] := 102;
      } else if c == 10 {
        buffer[at + 1] := 110;
      } else if c == 13 {
        buffer[at + 1] := 114;
      } else if c == 9 {
        buffer[at + 1] := 116;
      } else {
        buffer[at + 1], buffer[at + 2], buffer[at + 3] := LETTER_U, 48, 48;
        buffer[at + 4], buffer[at + 5] := HexDigit(c / 16), HexDigit(c % 16);
        next := at + 6;
      }
    }

    /** The first loop of `print_string_ptr`: how many bytes escaping adds. */
    method CountEscapes(s: Str) returns (extra: nat)
      ensures |s| + extra == |EscapeFrom(s, 0)|
      ensures extra == 0 ==> EscapeFrom(s, 0) == s
    {
      extra := 0;
      for i := 0 to |s|
        invariant i + extra == |EscapeTo(s, i)|
      {
        if s[i] == QUOTE || s[i] == BACKSLASH || s[i] == 8 || s[i] == 12 || s[i] == 10 || s[i] == 13 || s[i] == 9 {
          extra := extra + 1;
        } else if s[i] < 32 {
          extra := extra + 5;
        }
      }
      EscapeWhole(s);
      EscapeGrows(s, |s|);
    }

    /** The second loop: the escaped characters one after another. */
    method WriteEscaped(s: Str, at: nat)
      requires at + |EscapeFrom(s, 0)| <= buffer.Length
      modifies buffer
      ensures buffer[..at + |EscapeFrom(s, 0)|] == old(buffer[..at]) + EscapeFrom(s, 0)
    {
      hide EscapeTo, EscapeFrom, EscapeChar;
      EscapeStarts(s);
      var next := at;
      for i := 0 to |s|
        invariant next == at + |EscapeTo(s, i)| <= buffer.Length
        invariant buffer[..next] == old(buffer[..at]) + EscapeTo(s, i)
      {
        EscapeFits(s, i);
        next := EscapeOne(s[i], next);
      }
      EscapeWhole(s);
    }

    /** The rest of `print_string_ptr`, once there is room for the escaped form e. */
    method PlaceString(s: Str, extra: nat, ghost e: Str, ghost base: seq<byte>)
      requires e == EscapeFrom(s, 0) && |s| + extra == |e| && (extra == 0 ==> e == s)
      requires Holds(base) && |base| + |e| + 2 < buffer.Length
      modifies buffer
      ensures Kept() && Written(base, [QUOTE] + e + [QUOTE])
    {
      hide EscapeFrom;
      var length := |s| + extra;
      PutChar(offset, QUOTE);
      if extra == 0 {
        Put(offset + 1, s);
      } else {
        WriteEscaped(s, offset + 1);
      }
      PutChar(offset + length + 1, QUOTE);
      buffer[offset + length + 2] := 0;
      assert buffer[..offset + length + 2] == base + ([QUOTE] + e + [QUOTE]);
    }

    /** `print_string_ptr`. */
    method PrintString(s: Str, ghost base: seq<byte>) returns (ok: bool)
      requires Holds(base)
      modifies this, buffer
      ensures Kept() && depth == old(depth)
      ensures ok <==> |base| + |Quoted(s)| + 2 <= old(Capacity())
      ensures ok ==> Written(base, Quoted(s))
    {
      var extra := CountEscapes(s);
      ok := Ensure(|s| + extra + 3, base);
      if ok {
        PlaceString(s, extra, EscapeFrom(s, 0), base);
      }
    }

    /** A text printed in one piece, the offset moved behind it. */
    method PrintAndMove(t: Str, ghost base: seq<byte>) returns (ok: bool)
      requires Holds(base)
      modifies this, buffer
      ensures Kept() && depth == old(depth)
      ensures ok <==> |base| + |t| + 2 <= old(Capacity())
      ensures ok ==> Holds(base + t)
    {
      ok := PrintText(t, base);
      if ok {
        offset := offset + |t|;
      }
    }

    /** `print_value`: it succeeds exactly when the text and two more bytes fit the largest possible buffer. */
    method PrintValue(j: Json, ghost base: seq<byte>) returns (ok: bool)
      requires Holds(base)
      modifies this, buffer
      ensures Kept()
      ensures ok <==> |base| + |Rendered(format, old(depth), j)| + 2 <= old(Capacity())
      ensures ok ==> depth == old(depth) && Written(base, Rendered(format, depth, j))
      decreases j, 3
    {
      match j
      case Null => ok := PrintText(NULL_TEXT, base);
      case False => ok := PrintText(FALSE_TEXT, base);
      case True => ok := PrintText(TRUE_TEXT, base);
      case Number(n) => ok := PrintNumber(n, base);
      case String(s) => ok := PrintString(s, base);
      case Array(items) => ok := PrintArray(j, base);
      case Object(ms) => ok := PrintObject(j, base);
    }

    /** A value and then `update_offset`. */
    method PrintWhole(j: Json, ghost base: seq<byte>) returns (ok: bool)
      requires Holds(base)
      modifies this, buffer
      ensures Kept()
      ensures ok <==> |base| + |Rendered(format, old(depth), j)| + 2 <= old(Capacity())
      ensures ok ==> depth == old(depth) && Holds(base + Rendered(format, depth, j))
      decreases j, 4
    {
      ok := PrintValue(j, base);
      if ok {
        UpdateOffset(base, Rendered(format, depth, j));
      }
    }

    /** `print_array`. */
    method PrintArray(j: Json, ghost base: seq<byte>) returns (ok: bool)
      requires Holds(base) && j.Array?
      modifies this, buffer
      ensures Kept()
      ensures ok <==> |base| + |Rendered(format, old(depth), j)| + 2 <= old(Capacity())
      ensures ok ==> depth == old(depth) && Written(base, Rendered(format, depth, j))
      decreases j, 2
    {
      hide Rendered, RenderedItems, Holds, Written;
      ghost var body := RenderedItems(format, depth + 1, j.items);
      ArrayPieces(format, depth, j);
      ok := PrintPiece([OPEN_ARRAY], 1, base);
      if !ok { return; }
      depth := depth + 1;
      ok := PrintItems(j, base + [OPEN_ARRAY]);
      if !ok { return; }
      ok := PrintText([CLOSE_ARRAY], base + [OPEN_ARRAY] + body);
      depth := depth - 1;
      Rebase(base, [OPEN_ARRAY], body, [CLOSE_ARRAY], Rendered(format, depth, j));
    }

    /** The loop of `print_array`. */
    method PrintItems(j: Json, ghost base: seq<byte>) returns (ok: bool)
      requires Holds(base) && j.Array?
      modifies this, buffer
      ensures Kept()
      ensures !ok ==> |base| + |RenderedItems(format, old(depth), j.items)| + 2 > old(Capacity())
      ensures ok ==> depth == old(depth) && Holds(base + RenderedItems(format, depth, j.items))
      decreases j, 1
    {
      hide Rendered, RenderedItems, Holds, Written;
      ok := true;
      ghost var done: Str := [];
      assert j.items[0..] == j.items && base + done == base;
      for k := 0 to |j.items|
        invariant ok && Kept() && depth == old(depth)
        invariant Holds(base + done)
        invariant RenderedItems(format, depth, j.items) == done + RenderedItems(format, depth, j.items[k..])
      {
        ItemsSplit(format, depth, j.items, k);
        ok := PrintItem(j, k, base + done);
        if !ok { return; }
        ghost var item := RenderedItem(format, depth, j.items[k], k + 1 == |j.items|);
        assert base + (done + item) == base + done + item;
        done := done + item;
      }
      ItemsEnd(format, depth, j.items);
      assert done + [] == done;
    }

    /** One round of it. */
    method PrintItem(j: Json, k: nat, ghost base: seq<byte>) returns (ok: bool)
      requires Holds(base) && j.Array? && k < |j.items|
      modifies this, buffer
      ensures Kept()
      ensures ok <==> |base| + |RenderedItem(format, old(depth), j.items[k], k + 1 == |j.items|)| + 2 <= old(Capacity())
      ensures ok ==> depth == old(depth) && Holds(base + RenderedItem(format, depth, j.items[k], k + 1 == |j.items|))
      decreases j, 0
    {
      hide Rendered, Holds, Written;
      ghost var value := Rendered(format, depth, j.items[k]);
      ok := PrintWhole(j.items[k], base);
      if ok && k + 1 < |j.items| {
        var comma := [COMMA] + When(format, [SPACE]);
        ok := PrintAndMove(comma, base + value);
        assert base + value + comma == base + (value + comma);
      } else {
        assert value + [] == value;
      }
    }

    /** `print_object`. */
    method PrintObject(j: Json, ghost base: seq<byte>) returns (ok: bool)
      requires Holds(base) && j.Object?
      modifies this, buffer
      ensures Kept()
      ensures ok <==> |base| + |Rendered(format, old(depth), j)| + 2 <= old(Capacity())
      ensures ok ==> depth == old(depth) && Written(base, Rendered(format, depth, j))
      decreases j, 2
    {
      hide Rendered, RenderedMembers, Holds, Written, ObjectHead, ObjectTail;
      ghost var body := RenderedMembers(format, depth + 1, j.members);
      ObjectPieces(format, depth, j);
      ok := PrintPiece(ObjectHead(format), |ObjectHead(format)| + 1, base);
      if !ok { return; }
      depth := depth + 1;
      ok := PrintMembers(j, base + ObjectHead(format));
      if !ok { return; }
      ok := PrintText(ObjectTail(format, depth - 1), base + ObjectHead(format) + body);
      depth := depth - 1;
      Rebase(base, ObjectHead(format), body, ObjectTail(format, depth), Rendered(format, depth, j));
    }

    /** The loop of `print_object`. */
    method PrintMembers(j: Json, ghost base: seq<byte>) returns (ok: bool)
      requires Holds(base) && j.Object?
      modifies this, buffer
      ensures Kept()
      ensures !ok ==> |base| + |RenderedMembers(format, old(depth), j.members)| + 2 > old(Capacity())
      ensures ok ==> depth == old(depth) && Holds(base + RenderedMembers(format, depth, j.members))
      decreases j, 1
    {
      hide RenderedMember, RenderedMembers, Holds, Written;
      ok := true;
      ghost var done: Str := [];
      assert j.members[0..] == j.members && base + done == base;
      for k := 0 to |j.members|
        invariant ok && Kept() && depth == old(depth)
        invariant Holds(base + done)
        invariant RenderedMembers(format, depth, j.members) == done + RenderedMembers(format, depth, j.members[k..])
      {
        MembersSplit(format, depth, j.members, k);
        ok := PrintMember(j, k, base + done);
        if !ok { return; }
        ghost var member := RenderedMember(format, depth, j.members[k], k + 1 == |j.members|);
        assert base + (done + member) == base + done + member;
        done := done + member;
      }
      MembersEnd(format, depth, j.members);
      assert done + [] == done;
    }

    /** One round of it. */
    method PrintMember(j: Json, k: nat, ghost base: seq<byte>) returns (ok: bool)
      requires Holds(base) && j.Object? && k < |j.members|
      modifies this, buffer
      ensures Kept()
      ensures ok <==>
        |base| + |RenderedMember(format, old(depth), j.members[k], k + 1 == |j.members|)| + 2 <= old(Capacity())
      ensures ok ==>
        depth == old(depth) && Holds(base + RenderedMember(format, depth, j.members[k], k + 1 == |j.members|))
      decreases j, 0
    {
      var m, last := j.members[k], k + 1 == |j.members|;
      var tail := MemberTail(format, last);
      ghost var head, value := MemberHead(format, depth, m.key), Rendered(format, depth, m.value);
      MemberPieces(format, depth, m, last, base);
      hide Rendered, RenderedMember, MemberHead, MemberTail, Holds, Written;
      ok := PrintKey(m.key, base);
      if !ok { return; }
      ok := PrintWhole(m.value, base + head);
      if !ok { return; }
      ok := PrintAndMove(tail, base + head + value);
    }

    /** Its first part: indentation, key and colon. */
    method PrintKey(key: Str, ghost base: seq<byte>) returns (ok: bool)
      requires Holds(base)
      modifies this, buffer
      ensures Kept() && depth == old(depth)
      ensures !ok ==> |base| + |MemberHead(format, depth, key)| + 1 > old(Capacity())
      ensures ok ==> Holds(base + MemberHead(format, depth, key))
    {
      hide Quoted, Holds, Written;
      var tabs, colon := When(format, Tabs(depth)), [COLON] + When(format, [TAB]);
      assert MemberHead(format, depth, key) == tabs + Quoted(key) + colon;
      assert base + (tabs + Quoted(key) + colon) == base + tabs + Quoted(key) + colon;
      hide When, Tabs, MemberHead;
      if format {
        ok := PrintPiece(tabs, |tabs|, base);
        if !ok { return; }
      } else {
        assert base + tabs == base;
      }
      ok := PrintString(key, base + tabs);
      if !ok { return; }
      UpdateOffset(base + tabs, Quoted(key));
      ok := PrintPiece(colon, |colon|, base + tabs + Quoted(key));
    }

    lemma Rebase(base: seq<byte>, head: Str, body: Str, tail: Str, t: Str)
      requires t == head + body + tail
      ensures Written(base + head + body, tail) ==> Written(base, t)
    {
      assert base + t == base + head + body + tail;
    }
  }

  function ObjectHead(format: bool): Str {
    [OPEN_OBJECT] + When(format, [NEWLINE])
  }

  function ObjectTail(format: bool, depth: nat): Str {
    When(format, Tabs(depth)) + [CLOSE_OBJECT]
  }

  lemma ArrayPieces(format: bool, depth: nat, j: Json)
    requires j.Array?
    ensures Rendered(format, depth, j) == [OPEN_ARRAY] + RenderedItems(format, depth + 1, j.items) + [CLOSE_ARRAY]
    ensures |Rendered(format, depth, j)| == 2 + |RenderedItems(format, depth + 1, j.items)|
  {
  }

  lemma ObjectPieces(format: bool, depth: nat, j: Json)
    requires j.Object?
    ensures Rendered(format, depth, j)
      == ObjectHead(format) + RenderedMembers(format, depth + 1, j.members) + ObjectTail(format, depth)
    ensures |Rendered(format, depth, j)|
      == |ObjectHead(format)| + |RenderedMembers(format, depth + 1, j.members)| + |ObjectTail(format, depth)|
    ensures |ObjectTail(format, depth)| >= 1
  {
    hide RenderedMembers, Tabs;
    assert Rendered(format, depth, j)
      == [OPEN_OBJECT] + When(format, [NEWLINE]) + RenderedMembers(format, depth + 1, j.members)
         + (When(format, Tabs(depth)) + [CLOSE_OBJECT]);
  }

  lemma MemberPieces(format: bool, depth: nat, m: Member<Json>, last: bool, base: seq<byte>)
    ensures |RenderedMember(format, depth, m, last)|
      == |MemberHead(format, depth, m.key)| + |Rendered(format, depth, m.value)| + |MemberTail(format, last)|
    ensures base + RenderedMember(format, depth, m, last)
      == base + MemberHead(format, depth, m.key) + Rendered(format, depth, m.value) + MemberTail(format, last)
  {
    hide Rendered, MemberHead, MemberTail;
  }

  function RenderedItem(format: bool, depth: nat, j: Json, last: bool): Str {
    Rendered(format, depth, j) + When(!last, [COMMA] + When(format, [SPACE]))
  }

  lemma ItemsSplit(format: bool, depth: nat, items: seq<Json>, k: nat)
    requires k < |items|
    ensures RenderedItems(format, depth, items[k..])
      == RenderedItem(format, depth, items[k], k + 1 == |items|) + RenderedItems(format, depth, items[k + 1..])
  {
    assert items[k..][1..] == items[k + 1..];
  }

  lemma ItemsEnd(format: bool, depth: nat, items: seq<Json>)
    ensures RenderedItems(format, depth, items[|items|..]) == []
  {
  }

  lemma MembersSplit(format: bool, depth: nat, ms: Members, k: nat)
    requires k < |ms|
    ensures RenderedMembers(format, depth, ms[k..])
      == RenderedMember(format, depth, ms[k], k + 1 == |ms|) + RenderedMembers(format, depth, ms[k + 1..])
  {
    assert ms[k..][1..] == ms[k + 1..];
  }

  lemma MembersEnd(format: bool, depth: nat, ms: Members)
    ensures RenderedMembers(format, depth, ms[|ms|..]) == []
  {
  }

  /** `cJSON_PrintPreallocated`: two bytes more than the text are needed, and they are enough. */
  method PrintPreallocated(j: Json, buffer: array<byte>, format: bool) returns (ok: bool)
    requires buffer.Length <= INT_MAX
    modifies buffer
    ensures ok <==> |Rendered(format, 0, j)| + 2 <= buffer.Length
    ensures ok ==> buffer[..|Rendered(format, 0, j)|] == Rendered(format, 0, j) && buffer[|Rendered(format, 0, j)|] == 0
  {
    hide Rendered;
    var p := new PrintBuffer(buffer, true, format);
    ok := p.PrintValue(j, []);
    assert [] + Rendered(format, 0, j) == Rendered(format, 0, j);
  }

  /** `print`, behind `cJSON_Print` and `cJSON_PrintUnformatted`: the text in a block of exactly its size, or none. */
  method PrintAllocated(j: Json, format: bool) returns (ok: bool, printed: array<byte>)
    ensures ok <==> |Rendered(format, 0, j)| + 2 <= 0x7FFF_FFFF
    ensures ok ==> var text: seq<byte> := Rendered(format, 0, j); printed[..] == text + [0]
  {
    hide Rendered;
    var first := new byte[256];
    var p := new PrintBuffer(first, false, format);
    ok := p.PrintValue(j, []);
    printed := p.buffer;
    if ok {
      p.UpdateOffset([], Rendered(format, 0, j));
      var whole := p.buffer;
      printed := new byte[p.offset + 1](i requires 0 <= i < whole.Length reads whole => whole[i]);
      assert printed[..] == whole[..p.offset] + [0];
    }
  }

  /** `cJSON_PrintBuffered`: as `print`, from a first size the caller chooses. */
  method PrintBuffered(j: Json, prebuffer: int, format: bool) returns (ok: bool, printed: array<byte>)
    requires prebuffer <= INT_MAX
    ensures ok <==> prebuffer >= 0 && |Rendered(format, 0, j)| + 2 <= INT_MAX
    ensures ok ==> |Rendered(format, 0, j)| < printed.Length
    ensures ok ==> printed[..|Rendered(format, 0, j)|] == Rendered(format, 0, j) && printed[|Rendered(format, 0, j)|] == 0
  {
    hide Rendered;
    printed := new byte[0];
    if prebuffer < 0 {
      return false, printed;
    }
    var first := new byte[prebuffer];
    var p := new PrintBuffer(first, false, format);
    ok := p.PrintValue(j, []);
    printed := p.buffer;
    assert [] + Rendered(format, 0, j) == Rendered(format, 0, j);
  }
}
