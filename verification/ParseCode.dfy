/** The parser as it runs: a buffer whose offset and depth move while child lists are built. */
module ParseCode {
  import opened Text
  import opened Json
  import opened Print
  import opened Parse
  import opened StringScan

  /** The children read so far, followed by those still to be read. */
  function Extend<T>(xs: seq<T>, r: Option<Read<seq<T>>>): Option<Read<seq<T>>> {
    if r == None then None else Some(Read(xs + r.value.value, r.value.next))
  }

  /** The end of a list of children: the closing bracket is there, or the text is malformed. */
  function Close<T>(s: Bytes, off: nat, bracket: cchar, xs: seq<T>): Option<Read<seq<T>>> {
    if HasByte(s, off, bracket) then Some(Read(xs, off + 1)) else None
  }

  lemma ExtendNothing<T>(r: Option<Read<seq<T>>>)
    ensures Extend([], r) == r
  {
    if r.Some? { assert [] + r.value.value == r.value.value; }
  }

  lemma ExtendTwice<T>(xs: seq<T>, x: T, r: Option<Read<seq<T>>>)
    ensures Extend(xs, Extend([x], r)) == Extend(xs + [x], r)
  {
    if r.Some? { assert xs + ([x] + r.value.value) == xs + [x] + r.value.value; }
  }

  lemma ItemsUnfold(s: Bytes, off: nat, depth: nat)
    requires off <= |s|
    ensures ReadItems(s, off, depth) ==
      var v := ReadValue(s, Skip(s, off), depth);
      if v == None then None
      else
        var after := Skip(s, v.value.next);
        if HasByte(s, after, COMMA) then Extend([v.value.value], ReadItems(s, after + 1, depth))
        else Close(s, after, CLOSE_ARRAY, [v.value.value])
  {
    hide ReadValue;
  }

  lemma MembersUnfold(s: Bytes, off: nat, depth: nat)
    requires off <= |s|
    ensures ReadMembers(s, off, depth) ==
      var m := ReadMember(s, off, depth);
      if m == None then None
      else
        var after := Skip(s, m.value.next);
        if HasByte(s, after, COMMA) then Extend([m.value.value], ReadMembers(s, after + 1, depth))
        else Close(s, after, CLOSE_OBJECT, [m.value.value])
  {
    hide ReadMember;
  }

  /** `parse_buffer`. */
  class ParseBuffer {
    const content: Bytes
    var offset: nat
    var depth: nat

    ghost predicate Valid()
      reads this
    {
      offset <= |content|
    }

    constructor (content: Bytes)
      ensures Valid() && this.content == content && offset == 0 && depth == 0
    {
      this.content := content;
      offset, depth := 0, 0;
    }

    /** Reading succeeded with this value, leaving the buffer right behind it. */
    ghost predicate Took<T>(r: Option<T>, expected: Option<Read<T>>, depthBefore: nat)
      reads this
    {
      && Valid()
      && (r == None <==> expected == None)
      && (expected.Some? ==> r == Some(expected.value.value) && offset == expected.value.next && depth == depthBefore)
    }

    /** `buffer_skip_whitespace`. */
    method SkipWhitespace()
      requires Valid()
      modifies this`offset
      ensures Valid() && offset == Skip(content, old(offset))
    {
      if offset == |content| {
        return;
      }
      while offset < |content| && content[offset] <= 32
        invariant old(offset) <= offset <= |content|
        invariant SkipFrom(content, offset) == SkipFrom(content, old(offset))
        decreases |content| - offset
      {
        offset := offset + 1;
      }
      if offset == |content| {
        offset := offset - 1;
      }
    }

    /** `parse_string` on this buffer. */
    method TakeString() returns (r: Option<Str>)
      requires Valid()
      modifies this`offset
      ensures Took(r, ReadString(content, old(offset)), old(depth))
    {
      var t := ParseString(content, offset);
      if t == None {
        return None;
      }
      offset := t.value.next;
      return Some(t.value.value);
    }

    /** `parse_value`. */
    method TakeValue() returns (r: Option<Json>)
      requires Valid()
      modifies this
      ensures Took(r, ReadValue(content, old(offset), old(depth)), old(depth))
      decreases |content| - offset, 2
    {
      if StartsWith(content, offset, NULL_TEXT) {
        offset := offset + 4;
        return Some(Null);
      }
      if StartsWith(content, offset, FALSE_TEXT) {
        offset := offset + 5;
        return Some(False);
      }
      if StartsWith(content, offset, TRUE_TEXT) {
        offset := offset + 4;
        return Some(True);
      }
      if HasByte(content, offset, QUOTE) {
        var t := TakeString();
        return if t == None then None else Some(String(t.value));
      }
      if offset < |content| && (content[offset] == MINUS || DigitByte(content[offset])) {
        var n := ReadNumber(content, offset);
        if n == None {
          return None;
        }
        offset := n.value.next;
        return Some(n.value.value);
      }
      if HasByte(content, offset, OPEN_ARRAY) {
        r := TakeArray();
        return;
      }
      if HasByte(content, offset, OPEN_OBJECT) {
        r := TakeObject();
        return;
      }
      return None;
    }

    /** `parse_array`. */
    method TakeArray() returns (r: Option<Json>)
      requires Valid() && HasByte(content, offset, OPEN_ARRAY)
      modifies this
      ensures Took(r, ReadArray(content, old(offset), old(depth)), old(depth))
      decreases |content| - offset, 1
    {
      hide ReadItems, Skip, SkipFrom, ReadValue;
      if depth >= NESTING_LIMIT {
        return None;
      }
      depth := depth + 1;
      offset := offset + 1;
      SkipWhitespace();
      if HasByte(content, offset, CLOSE_ARRAY) {
        depth := depth - 1;
        offset := offset + 1;
        return Some(Array([]));
      }
      if offset == |content| {
        offset := offset - 1;
        return None;
      }
      var items := TakeItems();
      if items == None {
        return None;
      }
      depth := depth - 1;
      return Some(Array(items.value));
    }

    /** The loop of `parse_array`. */
    method TakeItems() returns (r: Option<seq<Json>>)
      requires Valid() && offset < |content|
      modifies this
      ensures Took(r, ReadItems(content, old(offset), old(depth)), old(depth))
      decreases |content| - offset, 3
    {
      hide ReadItems, ReadValue, Skip;
      ghost var inner, whole := depth, ReadItems(content, offset, depth);
      ExtendNothing(whole);
      var items: seq<Json> := [];
      var more := true;
      while more
        invariant old(offset) <= offset < |content| + 1 && depth == inner
        invariant more ==> whole == Extend(items, ReadItems(content, offset, inner))
        invariant !more ==> whole == Close(content, offset, CLOSE_ARRAY, items) && offset > old(offset)
        decreases more, |content| - offset
      {
        ItemsUnfold(content, offset, inner);
        SkipWhitespace();
        var v := TakeValue();
        if v == None {
          return None;
        }
        SkipWhitespace();
        more := HasByte(content, offset, COMMA);
        if more {
          ExtendTwice(items, v.value, ReadItems(content, offset + 1, inner));
          offset := offset + 1;
        }
        items := items + [v.value];
      }
      if !HasByte(content, offset, CLOSE_ARRAY) {
        return None;
      }
      offset := offset + 1;
      return Some(items);
    }

    /** `parse_object`. */
    method TakeObject() returns (r: Option<Json>)
      requires Valid() && HasByte(content, offset, OPEN_OBJECT)
      modifies this
      ensures Took(r, ReadObject(content, old(offset), old(depth)), old(depth))
      decreases |content| - offset, 1
    {
      if depth >= NESTING_LIMIT {
        return None;
      }
      depth := depth + 1;
      offset := offset + 1;
      SkipWhitespace();
      if HasByte(content, offset, CLOSE_OBJECT) {
        depth := depth - 1;
        offset := offset + 1;
        return Some(Object([]));
      }
      if offset == |content| {
        offset := offset - 1;
        return None;
      }
      var ms := TakeMembers();
      if ms == None {
        return None;
      }
      depth := depth - 1;
      return Some(Object(ms.value));
    }

    /** One turn of the loop of `parse_object`: a name, a colon and a value. */
    method TakeMember() returns (r: Option<Member<Json>>)
      requires Valid()
      modifies this
      ensures Took(r, ReadMember(content, old(offset), old(depth)), old(depth))
      decreases |content| - offset, 3
    {
      hide ReadString, ReadValue;
      SkipWhitespace();
      var key := TakeString();
      if key == None {
        return None;
      }
      SkipWhitespace();
      if !HasByte(content, offset, COLON) {
        return None;
      }
      offset := offset + 1;
      SkipWhitespace();
      var v := TakeValue();
      if v == None {
        return None;
      }
      return Some(Member(key.value, v.value));
    }

    /** The loop of `parse_object`. */
    method TakeMembers() returns (r: Option<Members>)
      requires Valid() && offset < |content|
      modifies this
      ensures Took(r, ReadMembers(content, old(offset), old(depth)), old(depth))
      decreases |content| - offset, 4
    {
      hide ReadMembers, ReadMember, Skip;
      ghost var inner, whole := depth, ReadMembers(content, offset, depth);
      ExtendNothing(whole);
      var ms: Members := [];
      var more := true;
      while more
        invariant old(offset) <= offset < |content| + 1 && depth == inner
        invariant more ==> whole == Extend(ms, ReadMembers(content, offset, inner))
        invariant !more ==> whole == Close(content, offset, CLOSE_OBJECT, ms) && offset > old(offset)
        decreases more, |content| - offset
      {
        MembersUnfold(content, offset, inner);
        var m := TakeMember();
        if m == None {
          return None;
        }
        SkipWhitespace();
        more := HasByte(content, offset, COMMA);
        if more {
          ExtendTwice(ms, m.value, ReadMembers(content, offset + 1, inner));
          offset := offset + 1;
        }
        ms := ms + [m.value];
      }
      if !HasByte(content, offset, CLOSE_OBJECT) {
        return None;
      }
      offset := offset + 1;
      return Some(ms);
    }
  }

  /** `cJSON_ParseWithLengthOpts`; `cJSON_Parse` calls it on a text with its terminating zero. */
  method ParseWithLengthOpts(value: Bytes, requireTerminated: bool) returns (r: Option<Read<Json>>)
    ensures r == ReadDocument(value, requireTerminated)
  {
    if value == [] {
      return None;
    }
    var buffer := new ParseBuffer(value);
    buffer.offset := AfterBom(value);
    buffer.SkipWhitespace();
    var item := buffer.TakeValue();
    if item == None {
      return None;
    }
    if requireTerminated {
      buffer.SkipWhitespace();
      if !HasByte(value, buffer.offset, 0) {
        return None;
      }
    }
    return Some(Read(item.value, buffer.offset));
  }
}
