/** What the minifier drops and what it keeps, in the characters themselves. */
module MinifyLaws {
  import opened Text
  import opened Print
  import opened Minify

  // ---------------------------------------------------------------- the text before does not matter

  lemma {:induction false} LineEndShift(p: Str, t: Str, i: nat)
    requires i <= |t|
    ensures LineEnd(p + t, |p| + i) == |p| + LineEnd(t, i)
    decreases |t| - i
  {
    if i < |t| { LineEndShift(p, t, i + 1); }
  }

  lemma {:induction false} CommentEndShift(p: Str, t: Str, i: nat)
    requires i <= |t|
    ensures CommentEnd(p + t, |p| + i) == |p| + CommentEnd(t, i)
    decreases |t| - i
  {
    if i < |t| {
      CommentEndShift(p, t, i + 1);
    }
  }

  lemma OutsideNext(s: Str, i: nat)
    requires i < |s|
    ensures Outside(s, i) ==
      if Blank(s[i]) then Outside(s, i + 1)
      else if s[i] == SLASH && CharAt(s, i + 1) == SLASH then Outside(s, LineEnd(s, i + 2))
      else if s[i] == SLASH && CharAt(s, i + 1) == STAR then Outside(s, CommentEnd(s, i + 2))
      else if s[i] == SLASH then Outside(s, i + 1)
      else if s[i] == QUOTE then [QUOTE] + Inside(s, i + 1)
      else [s[i]] + Outside(s, i + 1)
  {
  }

  lemma InsideNext(s: Str, i: nat)
    requires i < |s|
    ensures Inside(s, i) ==
      if s[i] == QUOTE then [QUOTE] + Outside(s, i + 1)
      else if s[i] == BACKSLASH && CharAt(s, i + 1) == QUOTE then [BACKSLASH, QUOTE] + Inside(s, i + 2)
      else [s[i]] + Inside(s, i + 1)
  {
  }

  lemma CharShift(p: Str, t: Str, i: nat)
    ensures CharAt(p + t, |p| + i) == CharAt(t, i)
  {
  }

  lemma AtEnd(s: Str)
    ensures Outside(s, |s|) == [] == Inside(s, |s|)
  {
  }

  lemma {:induction false} OutsideShift(p: Str, t: Str, i: nat)
    requires i <= |t|
    ensures Outside(p + t, |p| + i) == Outside(t, i)
    decreases |t| - i
  {
    hide Outside, Inside, LineEnd, CommentEnd, CharAt;
    if i == |t| {
      AtEnd(t);
      AtEnd(p + t);
    } else {
      var s := p + t;
      assert s[|p| + i] == t[i];
      CharShift(p, t, i + 1);
      OutsideNext(s, |p| + i);
      OutsideNext(t, i);
      if Blank(t[i]) || t[i] != SLASH {
        if t[i] == QUOTE { InsideShift(p, t, i + 1); } else { OutsideShift(p, t, i + 1); }
      } else if CharAt(t, i + 1) == SLASH {
        SecondChar(t, i);
        LineEndShift(p, t, i + 2);
        OutsideShift(p, t, LineEnd(t, i + 2));
      } else if CharAt(t, i + 1) == STAR {
        SecondChar(t, i);
        CommentEndShift(p, t, i + 2);
        OutsideShift(p, t, CommentEnd(t, i + 2));
      } else {
        OutsideShift(p, t, i + 1);
      }
    }
  }

  lemma SecondChar(t: Str, i: nat)
    requires i < |t| && CharAt(t, i + 1) != 0
    ensures i + 2 <= |t|
  {
  }

  lemma {:induction false} InsideShift(p: Str, t: Str, i: nat)
    requires i <= |t|
    ensures Inside(p + t, |p| + i) == Inside(t, i)
    decreases |t| - i
  {
    hide Outside, Inside, CharAt;
    if i == |t| {
      AtEnd(t);
      AtEnd(p + t);
    } else {
      assert (p + t)[|p| + i] == t[i];
      CharShift(p, t, i + 1);
      InsideNext(p + t, |p| + i);
      InsideNext(t, i);
      if t[i] == QUOTE {
        OutsideShift(p, t, i + 1);
      } else if t[i] == BACKSLASH && CharAt(t, i + 1) == QUOTE {
        SecondChar(t, i);
        InsideShift(p, t, i + 2);
      } else {
        InsideShift(p, t, i + 1);
      }
    }
  }

  /** Behind a prefix the text is minified as if it stood alone. */
  lemma Behind(p: Str, t: Str)
    ensures Outside(p + t, |p|) == Minified(t)
  {
    OutsideShift(p, t, 0);
  }

  // ---------------------------------------------------------------- what is dropped

  /** The four white space characters of RFC 8259 section 2. */
  lemma WhiteDropped(c: cchar, t: Str)
    requires c == ' ' as int || c == '\t' as int || c == '\r' as int || c == '\n' as int
    ensures Minified([c] + t) == Minified(t)
  {
    Behind([c], t);
  }

  lemma {:induction false} LineEndAt(s: Str, i: nat, n: nat)
    requires i <= n < |s| && s[n] == NEWLINE && forall k :: i <= k < n ==> s[k] != NEWLINE
    ensures LineEnd(s, i) == n + 1
    decreases n - i
  {
    if i < n { LineEndAt(s, i + 1, n); }
  }

  /** A comment from two slashes to the end of the line. */
  lemma LineDropped(body: Str, t: Str)
    requires '\n' as int !in body
    ensures Minified(Ascii("//") + body + Ascii("\n") + t) == Minified(t)
  {
    var p := Ascii("//") + body + Ascii("\n");
    var s := p + t;
    assert s[0] == SLASH && s[1] == SLASH && s[|p| - 1] == NEWLINE;
    assert forall k :: 2 <= k < |p| - 1 ==> s[k] == body[k - 2];
    LineEndAt(s, 2, |p| - 1);
    Behind(p, t);
  }

  lemma {:induction false} CommentEndAt(s: Str, i: nat, n: nat)
    requires i <= n && n + 1 < |s| && s[n] == STAR && s[n + 1] == SLASH
    requires forall k :: i <= k < n ==> s[k] != STAR || s[k + 1] != SLASH
    ensures CommentEnd(s, i) == n + 2
    decreases n - i
  {
    if i < n { CommentEndAt(s, i + 1, n); }
  }

  /** A comment from a slash and a star to the first star and slash. */
  lemma BlockDropped(body: Str, t: Str)
    requires forall k :: 0 <= k < |body| && body[k] == '*' as int && k + 1 < |body| ==> body[k + 1] != '/' as int
    ensures Minified(Ascii("/*") + body + Ascii("*/") + t) == Minified(t)
  {
    var p := Ascii("/*") + body + Ascii("*/");
    var s := p + t;
    var n := 2 + |body|;
    assert s[0] == SLASH && s[1] == STAR && s[n] == STAR && s[n + 1] == SLASH;
    assert forall k :: 2 <= k < n ==> s[k] == body[k - 2];
    CommentEndAt(s, 2, n);
    Behind(p, t);
  }

  /** A slash that starts no comment. */
  lemma SlashDropped(t: Str)
    requires t == [] || (t[0] != '/' as int && t[0] != '*' as int)
    ensures Minified(Ascii("/") + t) == Minified(t)
  {
    assert Ascii("/") == [SLASH];
    Behind([SLASH], t);
  }

  lemma {:induction false} NoLineEnd(s: Str, i: nat)
    requires i <= |s| && forall k :: i <= k < |s| ==> s[k] != NEWLINE
    ensures LineEnd(s, i) == |s|
    decreases |s| - i
  {
    if i < |s| { NoLineEnd(s, i + 1); }
  }

  lemma {:induction false} NoCommentEnd(s: Str, i: nat)
    requires i <= |s| && forall k :: i <= k < |s| ==> s[k] != STAR || CharAt(s, k + 1) != SLASH
    ensures CommentEnd(s, i) == |s|
    decreases |s| - i
  {
    if i < |s| { NoCommentEnd(s, i + 1); }
  }

  /** A comment without an end reaches to the end of the text. */
  lemma OpenCommentDropped(body: Str)
    ensures '\n' as int !in body ==> Minified(Ascii("//") + body) == []
    ensures (forall k :: 0 <= k < |body| && body[k] == '*' as int && k + 1 < |body| ==> body[k + 1] != '/' as int) ==>
      Minified(Ascii("/*") + body) == []
  {
    var line, block := Ascii("//") + body, Ascii("/*") + body;
    assert forall k :: 2 <= k < |line| ==> line[k] == block[k] == body[k - 2];
    assert line[0] == SLASH == line[1] && block[0] == SLASH && block[1] == STAR;
    if '\n' as int !in body { NoLineEnd(line, 2); }
    if forall k :: 0 <= k < |body| && body[k] == '*' as int && k + 1 < |body| ==> body[k + 1] != '/' as int {
      NoCommentEnd(block, 2);
    }
  }

  // ---------------------------------------------------------------- what is kept

  /** Any other character outside a string. */
  lemma OtherKept(c: cchar, t: Str)
    requires c !in {' ' as int, '\t' as int, '\r' as int, '\n' as int, '/' as int, '\"' as int}
    ensures Minified([c] + t) == [c] + Minified(t)
  {
    Behind([c], t);
  }

  /** The first quote that no backslash stands in front of ends a string. */
  ghost predicate Closed(body: Str) {
    (forall k :: 0 <= k < |body| && body[k] == '\"' as int ==> k > 0 && body[k - 1] == '\\' as int)
    && (body == [] || body[|body| - 1] != '\\' as int)
  }

  /** A string is kept as it is, comments and white space inside it included. */
  lemma StringKept(body: Str, t: Str)
    requires Closed(body)
    ensures Minified(Ascii("\"") + body + Ascii("\"") + t) == Ascii("\"") + body + Ascii("\"") + Minified(t)
  {
    hide Outside, Inside;
    assert Ascii("\"") == [QUOTE];
    var p := [QUOTE] + body + [QUOTE];
    var s := p + t;
    assert s[0] == QUOTE && s[|p| - 1] == QUOTE && forall k :: 0 <= k < |body| ==> s[1 + k] == body[k];
    OutsideNext(s, 0);
    StringFrom(s, body, 0);
    Behind(p, t);
    assert body[0..] == body;
    assert [QUOTE] + (body + [QUOTE] + Minified(t)) == [QUOTE] + body + [QUOTE] + Minified(t);
  }

  lemma {:induction false} StringFrom(s: Str, body: Str, k: nat)
    requires |body| + 2 <= |s| && s[|body| + 1] == QUOTE && forall k :: 0 <= k < |body| ==> s[1 + k] == body[k]
    requires Closed(body) && k <= |body| && (k < |body| ==> body[k] != QUOTE)
    ensures Inside(s, 1 + k) == body[k..] + [QUOTE] + Outside(s, |body| + 2)
    decreases |body| - k
  {
    hide Outside, Inside;
    InsideNext(s, 1 + k);
    if k < |body| {
      assert s[1 + k] == body[k];
      assert CharAt(s, 2 + k) == if k + 1 < |body| then body[k + 1] else QUOTE;
      if k + 1 < |body| && body[k + 1] == QUOTE {
        StringFrom(s, body, k + 2);
        assert body[k..] == [BACKSLASH, QUOTE] + body[k + 2..];
      } else {
        StringFrom(s, body, k + 1);
        assert body[k..] == [body[k]] + body[k + 1..];
      }
    }
  }
}
