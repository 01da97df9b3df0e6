/** The in-place minifier, and what it makes of a formatted print. */
module Minify {
  import opened Text
  import opened Print

  const SLASH: cchar := 47
  const STAR: cchar := 42
  const RETURN: cchar := 13

  predicate Blank(c: int) {
    c == SPACE || c == TAB || c == RETURN || c == NEWLINE
  }

  /** Behind the end of a `//` comment. */
  function LineEnd(s: Str, i: nat): (e: nat)
    requires i <= |s|
    ensures i <= e <= |s|
    decreases |s| - i
  {
    if i == |s| then i else if s[i] == NEWLINE then i + 1 else LineEnd(s, i + 1)
  }

  /** Behind the end of a comment closed by a star and a slash. */
  function CommentEnd(s: Str, i: nat): (e: nat)
    requires i <= |s|
    ensures i <= e <= |s|
    decreases |s| - i
  {
    if i == |s| then i
    else if s[i] == STAR && CharAt(s, i + 1) == SLASH then i + 2
    else CommentEnd(s, i + 1)
  }

  /** What is kept of the text from position i on, met outside a string. */
  function Outside(s: Str, i: nat): (m: Str)
    requires i <= |s|
    ensures |m| <= |s| - i
    decreases |s| - i
  {
    if i == |s| then []
    else if Blank(s[i]) then Outside(s, i + 1)
    else if s[i] == SLASH then
      if CharAt(s, i + 1) == SLASH then Outside(s, LineEnd(s, i + 2))
      else if CharAt(s, i + 1) == STAR then Outside(s, CommentEnd(s, i + 2))
      else Outside(s, i + 1)
    else if s[i] == QUOTE then [QUOTE] + Inside(s, i + 1)
    else [s[i]] + Outside(s, i + 1)
  }

  /** The same met inside a string: a backslash hides the quote behind it, even when it is itself escaped. */
  function Inside(s: Str, i: nat): (m: Str)
    requires i <= |s|
    ensures |m| <= |s| - i
    decreases |s| - i
  {
    if i == |s| then []
    else if s[i] == QUOTE then [QUOTE] + Outside(s, i + 1)
    else if s[i] == BACKSLASH && CharAt(s, i + 1) == QUOTE then [BACKSLASH, QUOTE] + Inside(s, i + 2)
    else [s[i]] + Inside(s, i + 1)
  }

  function Minified(s: Str): Str {
    Outside(s, 0)
  }

  /** Minifying twice changes nothing more, for every text, well formed or not. */
  lemma MinifyIdempotent(s: Str)
    ensures Minified(Minified(s)) == Minified(s)
  {
    OutsideAgain(s, 0, []);
    assert [] + Outside(s, 0) == Outside(s, 0);
  }

  lemma {:induction false} OutsideAgain(s: Str, i: nat, p: Str)
    requires i <= |s|
    ensures Outside(p + Outside(s, i), |p|) == Outside(s, i)
    decreases |s| - i
  {
    var m := Outside(s, i);
    if i == |s| {
    } else if Blank(s[i]) {
      OutsideAgain(s, i + 1, p);
    } else if s[i] == SLASH {
      OutsideAgain(s, if CharAt(s, i + 1) == SLASH then LineEnd(s, i + 2)
                      else if CharAt(s, i + 1) == STAR then CommentEnd(s, i + 2) else i + 1, p);
    } else {
      assert p + m == p + [s[i]] + m[1..];
      if s[i] == QUOTE { InsideAgain(s, i + 1, p + [QUOTE]); } else { OutsideAgain(s, i + 1, p + [s[i]]); }
    }
  }

  lemma {:induction false} InsideAgain(s: Str, i: nat, p: Str)
    requires i <= |s|
    ensures Inside(p + Inside(s, i), |p|) == Inside(s, i)
    decreases |s| - i
  {
    var m := Inside(s, i);
    if i == |s| {
    } else if s[i] == QUOTE {
      assert p + m == p + [QUOTE] + m[1..];
      OutsideAgain(s, i + 1, p + [QUOTE]);
    } else if s[i] == BACKSLASH && CharAt(s, i + 1) == QUOTE {
      assert p + m == p + [BACKSLASH, QUOTE] + m[2..];
      InsideAgain(s, i + 2, p + [BACKSLASH, QUOTE]);
    } else {
      assert p + m == p + [s[i]] + m[1..];
      InsideAgain(s, i + 1, p + [s[i]]);
    }
  }

  // ---------------------------------------------------------------- in place

  /** Up to `into` the result so far, from `read` on the unread text with its zero. */
  ghost predicate Between(now: seq<byte>, s: Str, into: nat, read: nat, rest: Str) {
    into <= read <= |s| < |now|
    && Minified(s) == now[..into] + rest
    && now[read..|s|] == s[read..] && now[|s|] == 0
  }

  lemma BetweenUnread(now: seq<byte>, s: Str, into: nat, read: nat, rest: Str)
    requires Between(now, s, into, read, rest)
    ensures into <= read <= |s| < |now|
    ensures forall k :: read <= k <= |s| ==> now[k] == CharAt(s, k)
  {
    assert forall k :: read <= k < |s| ==> now[k] == now[read..|s|][k - read];
  }

  lemma BetweenReads(now: seq<byte>, s: Str, into: nat, read: nat, rest: Str)
    requires Between(now, s, into, read, rest)
    ensures into <= read <= |s| < |now| && now[read] == CharAt(s, read)
    ensures read < |s| ==> now[read + 1] == CharAt(s, read + 1)
  {
    BetweenUnread(now, s, into, read, rest);
  }

  /** Reading on without writing. */
  lemma BetweenSkips(now: seq<byte>, s: Str, into: nat, read: nat, rest: Str, next: nat)
    requires Between(now, s, into, read, rest) && read <= next <= |s|
    ensures Between(now, s, into, next, rest)
  {
    assert now[next..|s|] == now[read..|s|][next - read..];
  }

  /** Copying one character. */
  lemma BetweenCopies(now: seq<byte>, s: Str, into: nat, read: nat, rest: Str, after: Str)
    requires Between(now, s, into, read, rest) && read < |s| && rest == [s[read]] + after
    ensures Between(now[into := s[read]], s, into + 1, read + 1, after)
  {
    var moved := now[into := s[read]];
    assert moved[..into + 1] + after == now[..into] + rest;
    assert moved[read + 1..|s|] == now[read..|s|][1..];
  }

  /** `skip_oneline_comment`. */
  method SkipLineComment(a: array<byte>, ghost s: Str, read: nat) returns (next: nat)
    requires read + 2 <= |s| < a.Length
    requires forall k :: read <= k <= |s| ==> a[k] == CharAt(s, k)
    ensures next == LineEnd(s, read + 2)
  {
    next := read + 2;
    while a[next] != 0
      invariant read <= next <= |s|
      invariant LineEnd(s, next) == LineEnd(s, read + 2)
      decreases |s| - next
    {
      if a[next] == NEWLINE {
        return next + 1;
      }
      next := next + 1;
    }
  }

  /** `skip_multiline_comment`. */
  method SkipBlockComment(a: array<byte>, ghost s: Str, read: nat) returns (next: nat)
    requires read + 2 <= |s| < a.Length
    requires forall k :: read <= k <= |s| ==> a[k] == CharAt(s, k)
    ensures next == CommentEnd(s, read + 2)
  {
    next := read + 2;
    while a[next] != 0
      invariant read <= next <= |s|
      invariant CommentEnd(s, next) == CommentEnd(s, read + 2)
      decreases |s| - next
    {
      if a[next] == STAR && a[next + 1] == SLASH {
        return next + 2;
      }
      next := next + 1;
    }
  }

  /** One character copied down. */
  method CopyChar(a: array<byte>, ghost s: Str, into: nat, read: nat, ghost rest: Str, ghost after: Str)
    requires Between(a[..], s, into, read, rest) && read < |s| && rest == [s[read]] + after
    modifies a
    ensures Between(a[..], s, into + 1, read + 1, after)
    ensures into <= read < |s| < a.Length && a[read + 1] == CharAt(s, read + 1)
    ensures a[|s| + 1..] == old(a[|s| + 1..])
  {
    BetweenReads(a[..], s, into, read, rest);
    BetweenCopies(a[..], s, into, read, rest, after);
    ghost var before := a[..];
    a[into] := a[read];
    assert a[..] == before[into := s[read]];
    assert a[|s| + 1..] == before[|s| + 1..];
    BetweenReads(a[..], s, into + 1, read + 1, after);
  }

  ghost function InsideAfter(s: Str, i: nat): Str
    requires i < |s|
  {
    if s[i] == QUOTE then Outside(s, i + 1)
    else if s[i] == BACKSLASH && CharAt(s, i + 1) == QUOTE then [QUOTE] + Inside(s, i + 2)
    else Inside(s, i + 1)
  }

  lemma InsideStep(s: Str, i: nat)
    requires i < |s|
    ensures Inside(s, i) == [s[i]] + InsideAfter(s, i)
  {
  }

  lemma InsideEnd(s: Str)
    ensures Inside(s, |s|) == Outside(s, |s|) == []
  {
  }

  /** `minify_string`. */
  method MinifyString(a: array<byte>, ghost s: Str, from: nat, start: nat) returns (read: nat, into: nat)
    requires from < |s| && s[from] == QUOTE
    requires Between(a[..], s, start, from, [QUOTE] + Inside(s, from + 1))
    modifies a
    ensures from < read <= |s| && Between(a[..], s, into, read, Outside(s, read))
    ensures a[|s| + 1..] == old(a[|s| + 1..])
  {
    hide Between, Inside, Outside;
    BetweenReads(a[..], s, start, from, [QUOTE] + Inside(s, from + 1));
    CopyChar(a, s, start, from, [QUOTE] + Inside(s, from + 1), Inside(s, from + 1));
    read, into := from + 1, start + 1;
    InsideEnd(s);
    while a[read] != 0
      invariant from < read <= |s| < a.Length && into <= read && a[read] == CharAt(s, read)
      invariant Between(a[..], s, into, read, Inside(s, read))
      invariant a[|s| + 1..] == old(a[|s| + 1..])
      decreases |s| - read
    {
      BetweenReads(a[..], s, into, read, Inside(s, read));
      var c, escaped := a[read], a[read] == BACKSLASH && a[read + 1] == QUOTE;
      InsideStep(s, read);
      CopyChar(a, s, into, read, Inside(s, read), InsideAfter(s, read));
      read, into := read + 1, into + 1;
      if c == QUOTE {
        return;
      } else if escaped {
        CopyChar(a, s, into, read, [QUOTE] + Inside(s, read + 1), Inside(s, read + 1));
        read, into := read + 1, into + 1;
      }
    }
  }

  /** `cJSON_Minify`: the write cursor never passes the read cursor. */
  method MinifyInPlace(a: array<byte>, ghost s: Str)
    requires |s| < a.Length && a[..|s|] == s && a[|s|] == 0
    modifies a
    ensures |Minified(s)| <= |s| && a[..|Minified(s)|] == Minified(s) && a[|Minified(s)|] == 0
    ensures a[|s| + 1..] == old(a[|s| + 1..])
  {
    var read, into := 0, 0;
    while a[read] != 0
      invariant 0 <= into <= read <= |s| && Between(a[..], s, into, read, Outside(s, read))
      invariant a[|s| + 1..] == old(a[|s| + 1..])
      decreases |s| - read
    {
      BetweenReads(a[..], s, into, read, Outside(s, read));
      var next := read + 1;
      if Blank(a[read]) {
        BetweenSkips(a[..], s, into, read, Outside(s, read), next);
      } else if a[read] == SLASH {
        BetweenUnread(a[..], s, into, read, Outside(s, read));
        if a[read + 1] == SLASH {
          next := SkipLineComment(a, s, read);
        } else if a[read + 1] == STAR {
          next := SkipBlockComment(a, s, read);
        }
        BetweenSkips(a[..], s, into, read, Outside(s, read), next);
      } else if a[read] == QUOTE {
        next, into := MinifyString(a, s, read, into);
      } else {
        BetweenCopies(a[..], s, into, read, Outside(s, read), Outside(s, next));
        a[into] := a[read];
        into := into + 1;
      }
      read := next;
    }
    BetweenReads(a[..], s, into, read, Outside(s, read));
    a[into] := 0;
  }
}
