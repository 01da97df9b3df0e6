/** Reading a string literal in two scans: the first measures, the second writes into a buffer of that size. */
module StringScan {
  import opened Text
  import opened Print
  import opened Parse

  /** How many escapes the first scan, now at i, meets before position p. */
  function EscapesBefore(s: Bytes, i: nat, p: nat, end: nat): nat
    requires end <= |s|
    decreases end + 2 - i
  {
    if i >= p || i >= end then 0
    else if s[i] == BACKSLASH then 1 + EscapesBefore(s, i + 2, p, end)
    else EscapesBefore(s, i + 1, p, end)
  }

  /** The first scan meets at most one escape in any two positions. */
  lemma {:induction false} EscapesSpaced(s: Bytes, i: nat, p: nat, end: nat)
    requires end <= |s| && i <= end + 1
    ensures EscapesBefore(s, i, p, end) <= EscapesBefore(s, i, p + 1, end) <= EscapesBefore(s, i, p + 2, end)
    ensures EscapesBefore(s, i, p + 2, end) <= EscapesBefore(s, i, p, end) + 1
    ensures p < end && s[p] != BACKSLASH ==> EscapesBefore(s, i, p + 1, end) == EscapesBefore(s, i, p, end)
    decreases end + 2 - i
  {
    if i < p + 2 && i < end {
      EscapesSpaced(s, if s[i] == BACKSLASH then i + 2 else i + 1, p, end);
    }
  }

  lemma {:induction false} EscapesGrow(s: Bytes, i: nat, p: nat, n: nat, end: nat)
    requires end <= |s| && i <= end + 1
    ensures EscapesBefore(s, i, p + 2 * n, end) <= EscapesBefore(s, i, p, end) + n
    decreases n
  {
    if n > 0 {
      EscapesGrow(s, i, p, n - 1, end);
      EscapesSpaced(s, i, p + 2 * (n - 1), end);
    }
  }

  /** The room left for p bytes never shrinks as p grows. */
  lemma {:induction false} RoomGrows(s: Bytes, i: nat, p: nat, q: nat, end: nat)
    requires end <= |s| && i <= end + 1 && p <= q
    ensures p - EscapesBefore(s, i, p, end) <= q - EscapesBefore(s, i, q, end)
    decreases q - p
  {
    if p < q {
      RoomGrows(s, i, p, q - 1, end);
      EscapesSpaced(s, i, q - 1, end);
    }
  }

  /** The size `parse_string` allocates, without its terminating zero: quote to quote, less one byte an escape. */
  function Allocation(s: Bytes, start: nat, end: nat): nat
    requires start <= end <= |s|
  {
    RoomGrows(s, start, start, end + 1, end);
    end + 1 - start - EscapesBefore(s, start, end + 1, end)
  }

  /** Bytes written while the second scan got to p are paid for by what the first scan counted. */
  ghost predicate Paid(s: Bytes, start: nat, end: nat, p: nat, written: nat)
    requires end <= |s|
  {
    start <= p <= end + 1 && written + EscapesBefore(s, start, p, end) <= p - start
  }

  lemma PaidFits(s: Bytes, start: nat, end: nat, p: nat, written: nat)
    requires start <= end <= |s| && Paid(s, start, end, p, written)
    ensures written <= Allocation(s, start, end)
  {
    RoomGrows(s, start, p, end + 1, end);
  }

  lemma PayPlain(s: Bytes, start: nat, end: nat, p: nat, written: nat)
    requires start <= end <= |s| && Paid(s, start, end, p, written) && p < end && s[p] != BACKSLASH
    ensures Paid(s, start, end, p + 1, written + 1)
  {
    EscapesSpaced(s, start, p, end);
  }

  lemma PaySimple(s: Bytes, start: nat, end: nat, p: nat, written: nat)
    requires start <= end <= |s| && Paid(s, start, end, p, written) && p < end
    ensures Paid(s, start, end, p + 2, written + 1)
  {
    EscapesSpaced(s, start, p, end);
  }

  lemma PayUnicode(s: Bytes, start: nat, end: nat, p: nat, written: nat, cp: nat, next: nat)
    requires start <= end <= |s| && Paid(s, start, end, p, written) && p < end
    requires ReadEscape(s, p, end) == Some(Read(cp, next))
    ensures Paid(s, start, end, next, written + Utf8Length(cp))
  {
    EscapesGrow(s, start, p, (next - p) / 2, end);
  }

  /** Whatever the escapes look like, what the second scan writes fits what the first scan measured. */
  lemma {:induction false} DecodedFits(s: Bytes, start: nat, end: nat, p: nat, written: nat)
    requires start <= end < |s| && Paid(s, start, end, p, written)
    ensures match Unescaped(s, p, end) case None => true case Some(b) => written + |b| <= Allocation(s, start, end)
    decreases end + 1 - p
  {
    if p >= end {
      PaidFits(s, start, end, p, written);
    } else if s[p] != BACKSLASH {
      PayPlain(s, start, end, p, written);
      DecodedFits(s, start, end, p + 1, written + 1);
    } else if s[p + 1] == LETTER_U {
      var r := ReadEscape(s, p, end);
      if r.Some? {
        PayUnicode(s, start, end, p, written, r.value.value, r.value.next);
        DecodedFits(s, start, end, r.value.next, written + Utf8Length(r.value.value));
      }
    } else {
      PaySimple(s, start, end, p, written);
      DecodedFits(s, start, end, p + 2, written + 1);
    }
  }

  // ---------- UTF-8

  /** What a decoder makes of one UTF-8 sequence, by RFC 3629 section 3; overlong forms are not accepted. */
  function Utf8Decoded(b: Bytes): Option<nat> {
    if |b| == 1 && b[0] < 0x80 then Some(b[0])
    else if |b| == 2 && 0xC0 <= b[0] < 0xE0 && Continues(b, 1) && Weight(b, b[0] - 0xC0) >= 0x80 then Some(Weight(b, b[0] - 0xC0))
    else if |b| == 3 && 0xE0 <= b[0] < 0xF0 && Continues(b, 1) && Weight(b, b[0] - 0xE0) >= 0x800 then Some(Weight(b, b[0] - 0xE0))
    else if |b| == 4 && 0xF0 <= b[0] < 0xF8 && Continues(b, 1) && 0x10000 <= Weight(b, b[0] - 0xF0) <= 0x10FFFF then Some(Weight(b, b[0] - 0xF0))
    else None
  }

  predicate Continues(b: Bytes, from: nat) {
    forall k :: from <= k < |b| ==> 0x80 <= b[k] < 0xC0
  }

  /** The lead bits followed by six bits from every later byte. */
  function Weight(b: Bytes, lead: nat): nat
    requires |b| >= 1 && Continues(b, 1)
    decreases |b|
  {
    if |b| == 1 then lead
    else
      var c: int := b[|b| - 1];
      64 * Weight(b[..|b| - 1], lead) + c - 0x80
  }

  /** Each well-formed escape decodes to the UTF-8 encoding of its code point. */
  lemma Utf8RoundTrip(cp: nat)
    requires cp <= 0x10FFFF
    ensures Utf8Decoded(Utf8(cp)) == Some(cp)
  {
    if cp >= 0x10000 {
      FourBytes(cp);
    } else if cp >= 0x800 {
      ThreeBytes(cp);
    } else if cp >= 0x80 {
      TwoBytes(cp);
    }
  }

  lemma TwoBytes(cp: nat)
    requires 0x80 <= cp < 0x800
    ensures Utf8Decoded(Utf8(cp)) == Some(cp)
  {
    var b := Utf8(cp);
    Groups(cp);
    assert Weight(b[..1], cp / 64) == cp / 64;
  }

  lemma ThreeBytes(cp: nat)
    requires 0x800 <= cp < 0x10000
    ensures Utf8Decoded(Utf8(cp)) == Some(cp)
  {
    var b := Utf8(cp);
    Groups(cp);
    assert b[..2][..1] == b[..1];
    assert Weight(b[..1], cp / 4096) == cp / 4096;
    assert Weight(b[..2], cp / 4096) == 64 * (cp / 4096) + cp / 64 % 64;
  }

  lemma FourBytes(cp: nat)
    requires 0x10000 <= cp <= 0x10FFFF
    ensures Utf8Decoded(Utf8(cp)) == Some(cp)
  {
    var b := Utf8(cp);
    Groups(cp);
    assert b[..3][..2] == b[..2] && b[..2][..1] == b[..1];
    assert Weight(b[..1], cp / 262144) == cp / 262144;
    assert Weight(b[..2], cp / 262144) == 64 * (cp / 262144) + cp / 4096 % 64;
    assert Weight(b[..3], cp / 262144) == 64 * (cp / 4096) + cp / 64 % 64;
  }

  lemma Groups(cp: nat)
    ensures cp / 64 / 64 == cp / 4096 && cp / 4096 / 64 == cp / 262144
    ensures cp == 64 * (cp / 64) + cp % 64
    ensures cp / 64 == 64 * (cp / 4096) + cp / 64 % 64
    ensures cp / 4096 == 64 * (cp / 262144) + cp / 4096 % 64
  {
  }

  /** Section 2.1 of RFC 2781: splitting a code point into surrogates and combining them again. */
  lemma SurrogatesRoundTrip(cp: nat)
    requires 0x10000 <= cp <= 0x10FFFF
    ensures var high, low := 0xD800 + (cp - 0x10000) / 0x400, 0xDC00 + (cp - 0x10000) % 0x400;
      HighSurrogate(high) && LowSurrogate(low) && Combine(high, low) == cp
  {
  }

  /** The code point with n groups of six bits shifted out. */
  function Shifted(cp: nat, n: nat): nat {
    if n == 0 then cp else Shifted(cp, n - 1) / 64
  }

  /** The mark of the first byte. */
  function FirstMark(cp: nat): nat
    requires cp <= 0x10FFFF
  {
    if cp < 0x80 then 0 else if cp < 0x800 then 0xC0 else if cp < 0x10000 then 0xE0 else 0xF0
  }

  lemma Utf8Bytes(cp: nat)
    requires cp <= 0x10FFFF
    ensures var n := Utf8Length(cp);
      && Utf8(cp)[0] == FirstMark(cp) + Shifted(cp, n - 1)
      && forall k :: 0 < k < n ==> Utf8(cp)[k] == 0x80 + Shifted(cp, n - 1 - k) % 64
  {
    Groups(cp);
    assert Shifted(cp, 1) == cp / 64 && Shifted(cp, 2) == cp / 4096 && Shifted(cp, 3) == cp / 262144;
  }

  /** The loop of `utf16_literal_to_utf8` that fills in the bytes from the last to the first. */
  method PutUtf8(output: array<byte>, at: nat, cp: nat)
    requires cp <= 0x10FFFF && at + Utf8Length(cp) <= output.Length
    modifies output
    ensures output[at..at + Utf8Length(cp)] == Utf8(cp)
    ensures forall k :: 0 <= k < output.Length && !(at <= k < at + Utf8Length(cp)) ==> output[k] == old(output[k])
  {
    hide Utf8;
    Utf8Bytes(cp);
    var length := Utf8Length(cp);
    var codepoint, position := cp, length - 1;
    while position > 0
      invariant 0 <= position < length
      invariant codepoint == Shifted(cp, length - 1 - position)
      invariant forall k :: position < k < length ==> output[at + k] == Utf8(cp)[k]
      invariant forall k :: 0 <= k < output.Length && !(at + position < k < at + length) ==> output[k] == old(output[k])
    {
      output[at + position] := 0x80 + codepoint % 64;
      codepoint := codepoint / 64;
      position := position - 1;
    }
    output[at] := FirstMark(cp) + codepoint;
  }

  // ---------- parse_string

  /** The first scan: where the closing quote is, and how many bytes were skipped. */
  method Measure(s: Bytes, start: nat) returns (end: Option<nat>, skipped: nat)
    requires start <= |s|
    ensures end == StringEnd(s, start)
    ensures end.Some? ==> start <= end.value && skipped == EscapesBefore(s, start, end.value + 1, end.value)
  {
    var i := start;
    skipped := 0;
    while i < |s| && s[i] != QUOTE
      invariant start <= i <= |s|
      invariant StringEnd(s, i) == StringEnd(s, start)
      invariant var e := StringEnd(s, start);
        e.Some? ==> i <= e.value && skipped + EscapesBefore(s, i, e.value + 1, e.value) == EscapesBefore(s, start, e.value + 1, e.value)
      decreases |s| - i
    {
      if s[i] == BACKSLASH {
        if i + 1 >= |s| {
          return None, skipped;
        }
        skipped := skipped + 1;
        i := i + 1;
      }
      i := i + 1;
    }
    if i >= |s| {
      return None, skipped;
    }
    return Some(i), skipped;
  }

  lemma PrependNothing(r: Option<Bytes>)
    ensures Prepend([], r) == r
  {
    if r.Some? { assert [] + r.value == r.value; }
  }

  lemma PrependTwice(a: Bytes, b: Bytes, r: Option<Bytes>)
    ensures Prepend(a, Prepend(b, r)) == Prepend(a + b, r)
  {
    if r.Some? { assert a + (b + r.value) == a + b + r.value; }
  }

  /** One turn of the second scan: copy a byte, or translate an escape. */
  method Step(s: Bytes, start: nat, p: nat, end: nat, output: array<byte>, written: nat) returns (ok: bool, p': nat,
        written': nat)
    requires start <= p < end < |s| && Paid(s, start, end, p, written)
    requires output.Length == Allocation(s, start, end) + 1 && written < output.Length
    modifies output
    ensures !ok ==> Unescaped(s, p, end) == None
    ensures ok ==> p < p' && Paid(s, start, end, p', written') && written <= written' < output.Length
    ensures ok ==> output[..written] == old(output[..written])
    ensures ok ==> Unescaped(s, p, end) == Prepend(output[written..written'], Unescaped(s, p', end))
  {
    if s[p] != BACKSLASH {
      p', written' := p + 1, written + 1;
      PayPlain(s, start, end, p, written);
      PaidFits(s, start, end, p', written');
      output[written] := s[p];
      assert output[written..written'] == [s[p]];
    } else if s[p + 1] == LETTER_U {
      var escape := ReadEscape(s, p, end);
      if escape == None {
        return false, p, written;
      }
      var cp := escape.value.value;
      p', written' := escape.value.next, written + Utf8Length(cp);
      PayUnicode(s, start, end, p, written, cp, p');
      PaidFits(s, start, end, p', written');
      PutUtf8(output, written, cp);
    } else {
      var c := SimpleEscape(s[p + 1]);
      if c == None {
        return false, p, written;
      }
      p', written' := p + 2, written + 1;
      PaySimple(s, start, end, p, written);
      PaidFits(s, start, end, p', written');
      output[written] := c.value;
      assert output[written..written'] == [c.value];
    }
    ok := true;
  }

  /** The second scan. */
  method Decode(s: Bytes, start: nat, end: nat, output: array<byte>) returns (ok: bool, written: nat)
    requires start <= end < |s| && StringEnd(s, start) == Some(end) && output.Length == Allocation(s, start, end) + 1
    modifies output
    ensures written < output.Length
    ensures Unescaped(s, start, end) == if ok then Some(output[..written]) else None
  {
    var p := start;
    written := 0;
    PrependNothing(Unescaped(s, start, end));
    PaidFits(s, start, end, start, 0);
    hide Paid, Unescaped;
    while p < end
      invariant Paid(s, start, end, p, written) && start <= p && written < output.Length
      invariant Unescaped(s, start, end) == Prepend(output[..written], Unescaped(s, p, end))
      decreases end + 1 - p
    {
      ghost var before := output[..written];
      var stepped, p', written' := Step(s, start, p, end, output, written);
      if !stepped {
        return false, written;
      }
      assert output[..written'] == before + output[written..written'];
      PrependTwice(before, output[written..written'], Unescaped(s, p', end));
      p, written := p', written';
    }
    NothingLeft(s, p, end);
    assert output[..written] + [] == output[..written];
    ok := true;
  }

  lemma NothingLeft(s: Bytes, p: nat, end: nat)
    requires p >= end && end < |s|
    ensures Unescaped(s, p, end) == Some([])
  {
  }

  /** `parse_string`: every write lands in the buffer sized by the first scan. */
  method ParseString(s: Bytes, off: nat) returns (r: Option<Read<Str>>)
    ensures r == ReadString(s, off)
  {
    if !HasByte(s, off, QUOTE) {
      return None;
    }
    var start := off + 1;
    var closing, skipped := Measure(s, start);
    if closing == None {
      return None;
    }
    var end := closing.value;
    assert end - off - skipped == Allocation(s, start, end);
    var output := new byte[end - off - skipped + 1];
    var ok, written := Decode(s, start, end, output);
    if !ok {
      return None;
    }
    output[written] := 0;
    return Some(Read(CString(output[..written]), end + 1));
  }
}
