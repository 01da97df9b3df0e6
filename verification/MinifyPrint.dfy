/** Minifying a formatted print gives the unformatted print, and exactly when. */
module MinifyPrint {
  import opened Text
  import opened Json
  import opened Print
  import opened Minify

  /** A string whose closing quote the minifier takes for an escaped one. */
  predicate EndsInBackslash(s: Str) {
    s != [] && s[|s| - 1] == BACKSLASH
  }

  /** No string and no key ends with a backslash. */
  predicate Clean(j: Json)
    decreases j
  {
    match j
    case String(s) => !EndsInBackslash(s)
    case Array(items) => CleanItems(items)
    case Object(ms) => CleanMembers(ms)
    case _ => true
  }

  predicate CleanItems(items: seq<Json>)
    decreases items
  {
    items == [] || (Clean(items[0]) && CleanItems(items[1..]))
  }

  predicate CleanMembers(ms: Members)
    decreases ms
  {
    ms == [] || (!EndsInBackslash(ms[0].key) && Clean(ms[0].value) && CleanMembers(ms[1..]))
  }

  /** A string that ends with a backslash occurs, if at all, only as the last thing before the closing brackets. */
  predicate CleanButLast(j: Json)
    decreases j
  {
    match j
    case String(_) => true
    case Array(items) => CleanButLastItem(items)
    case _ => Clean(j)
  }

  predicate CleanButLastItem(items: seq<Json>)
    decreases items
  {
    if items == [] then true
    else if |items| == 1 then CleanButLast(items[0])
    else Clean(items[0]) && CleanButLastItem(items[1..])
  }

  lemma {:induction false} CleanIsCleanButLast(j: Json)
    requires Clean(j)
    ensures CleanButLast(j)
    decreases j
  {
    if j.Array? { CleanItemsAreCleanButLast(j.items); }
  }

  lemma {:induction false} CleanItemsAreCleanButLast(items: seq<Json>)
    requires CleanItems(items)
    ensures CleanButLastItem(items)
    decreases items
  {
    if items != [] {
      CleanIsCleanButLast(items[0]);
      CleanItemsAreCleanButLast(items[1..]);
    }
  }

  // ---------------------------------------------------------------- reading text that is in place

  ghost predicate At(s: Str, i: nat, t: Str) {
    i + |t| <= |s| && s[i..i + |t|] == t
  }

  lemma AtParts(s: Str, i: nat, a: Str, b: Str)
    requires At(s, i, a + b)
    ensures At(s, i, a) && At(s, i + |a|, b)
  {
    var t := s[i..i + |a + b|];
    assert s[i..i + |a|] == t[..|a|];
    assert s[i + |a|..i + |a| + |b|] == t[|a|..];
  }

  lemma AtFirst(s: Str, i: nat, t: Str)
    requires At(s, i, t) && t != []
    ensures s[i] == t[0]
  {
    assert s[i] == s[i..i + |t|][0];
  }

  /** What the minifier makes of the rest, outside or inside a string. */
  function Onward(outside: bool, s: Str, i: nat): Str
    requires i <= |s|
  {
    if outside then Outside(s, i) else Inside(s, i)
  }

  /** The result starts with u and goes on as rest. */
  ghost predicate Emits(m: Str, u: Str, rest: Str) {
    m == u + rest
  }

  lemma EmitsThen(m: Str, u: Str, middle: Str, v: Str, rest: Str)
    requires Emits(m, u, middle) && Emits(middle, v, rest)
    ensures Emits(m, u + v, rest)
  {
    assert u + v + rest == u + (v + rest);
  }

  lemma EmitsNothing(m: Str)
    ensures Emits(m, [], m)
  {
    assert [] + m == m;
  }

  predicate Kept(c: cchar) {
    !Blank(c) && c != SLASH && c != QUOTE
  }

  lemma OutsideKeepsOne(s: Str, i: nat, c: cchar)
    requires At(s, i, [c]) && Kept(c)
    ensures Emits(Outside(s, i), [c], Outside(s, i + 1))
  {
    AtFirst(s, i, [c]);
  }

  lemma {:induction false} OutsideKeeps(s: Str, i: nat, t: Str)
    requires At(s, i, t) && forall k :: 0 <= k < |t| ==> Kept(t[k])
    ensures Emits(Outside(s, i), t, Outside(s, i + |t|))
    decreases |t|
  {
    hide Emits, Outside;
    if t == [] {
      EmitsNothing(Outside(s, i));
    } else {
      assert t == [t[0]] + t[1..];
      AtParts(s, i, [t[0]], t[1..]);
      OutsideKeepsOne(s, i, t[0]);
      OutsideKeeps(s, i + 1, t[1..]);
      EmitsThen(Outside(s, i), [t[0]], Outside(s, i + 1), t[1..], Outside(s, i + |t|));
    }
  }

  lemma {:induction false} OutsideDrops(s: Str, i: nat, t: Str)
    requires At(s, i, t) && forall k :: 0 <= k < |t| ==> Blank(t[k])
    ensures Outside(s, i) == Outside(s, i + |t|)
    decreases |t|
  {
    if t != [] {
      AtFirst(s, i, t);
      AtParts(s, i, [t[0]], t[1..]);
      OutsideDrops(s, i + 1, t[1..]);
    }
  }

  lemma InsideKeepsOne(s: Str, i: nat, c: cchar)
    requires At(s, i, [c]) && c != QUOTE && c != BACKSLASH
    ensures Emits(Inside(s, i), [c], Inside(s, i + 1))
  {
    AtFirst(s, i, [c]);
  }

  lemma {:induction false} InsideKeeps(s: Str, i: nat, t: Str)
    requires At(s, i, t) && forall k :: 0 <= k < |t| ==> t[k] != QUOTE && t[k] != BACKSLASH
    ensures Emits(Inside(s, i), t, Inside(s, i + |t|))
    decreases |t|
  {
    hide Emits, Inside;
    if t == [] {
      EmitsNothing(Inside(s, i));
    } else {
      assert t == [t[0]] + t[1..];
      AtParts(s, i, [t[0]], t[1..]);
      InsideKeepsOne(s, i, t[0]);
      InsideKeeps(s, i + 1, t[1..]);
      EmitsThen(Inside(s, i), [t[0]], Inside(s, i + 1), t[1..], Inside(s, i + |t|));
    }
  }

  // ---------------------------------------------------------------- strings

  /** A backslash in front of anything but a quote is copied alone. */
  lemma BackslashKept(s: Str, i: nat, next: cchar)
    requires At(s, i, [BACKSLASH]) && At(s, i + 1, [next])
    requires next == BACKSLASH ==> CharAt(s, i + 2) != QUOTE
    ensures next == QUOTE || next == BACKSLASH ==> Emits(Inside(s, i), [BACKSLASH, next], Inside(s, i + 2))
    ensures next != QUOTE ==> Emits(Inside(s, i), [BACKSLASH], Inside(s, i + 1))
  {
    AtFirst(s, i, [BACKSLASH]);
    AtFirst(s, i + 1, [next]);
  }

  /** An escaped character is copied whole, unless it is the backslash right before the closing quote. */
  lemma EscapeKept(s: Str, i: nat, c: cchar)
    requires At(s, i, EscapeChar(c))
    requires c == BACKSLASH ==> CharAt(s, i + 2) != QUOTE
    ensures Emits(Inside(s, i), EscapeChar(c), Inside(s, i + |EscapeChar(c)|))
  {
    hide Emits, Inside, At;
    var e := EscapeChar(c);
    if |e| == 1 {
      InsideKeeps(s, i, e);
    } else {
      assert e == [BACKSLASH] + e[1..];
      AtParts(s, i, [BACKSLASH], e[1..]);
      assert e[1..] == [e[1]] + e[2..];
      AtParts(s, i + 1, [e[1]], e[2..]);
      BackslashKept(s, i, e[1]);
      if e[1] == QUOTE || e[1] == BACKSLASH {
        assert e == [BACKSLASH, e[1]];
      } else {
        InsideKeeps(s, i + 1, e[1..]);
        EmitsThen(Inside(s, i), [BACKSLASH], Inside(s, i + 1), e[1..], Inside(s, i + |e|));
      }
    }
  }

  /** The closing quote after an escaped backslash is taken for an escaped quote. */
  lemma MisjudgedQuote(s: Str, i: nat)
    requires At(s, i, [BACKSLASH, BACKSLASH]) && At(s, i + 2, [QUOTE])
    ensures Emits(Inside(s, i), [BACKSLASH, BACKSLASH, QUOTE], Inside(s, i + 3))
  {
    AtParts(s, i, [BACKSLASH], [BACKSLASH]);
    AtFirst(s, i, [BACKSLASH]);
    AtFirst(s, i + 1, [BACKSLASH]);
    AtFirst(s, i + 2, [QUOTE]);
  }

  lemma ClosingQuote(s: Str, i: nat)
    requires At(s, i, [QUOTE])
    ensures Emits(Inside(s, i), [QUOTE], Outside(s, i + 1))
    ensures Emits(Outside(s, i), [QUOTE], Inside(s, i + 1))
  {
    AtFirst(s, i, [QUOTE]);
  }

  /** The escaped characters from p on, with the closing quote. */
  function Closing(str: Str, p: nat): (t: Str)
    requires p <= |str|
    ensures t != []
  {
    EscapeFrom(str, p) + [QUOTE]
  }

  lemma ClosingStep(str: Str, p: nat)
    requires p < |str|
    ensures Closing(str, p) == EscapeChar(str[p]) + Closing(str, p + 1)
    ensures Closing(str, p)[0] != QUOTE
  {
  }

  lemma ClosingEnd(str: Str)
    ensures Closing(str, |str|) == [QUOTE]
  {
  }

  lemma {:induction false} EscapedKept(s: Str, i: nat, str: Str, p: nat)
    requires p <= |str| && At(s, i, Closing(str, p))
    ensures Emits(Inside(s, i), Closing(str, p),
                  Onward(p == |str| || !EndsInBackslash(str), s, i + |Closing(str, p)|))
    decreases |str| - p
  {
    hide Emits, Inside, Outside, At, EscapeChar, EscapeFrom;
    if p == |str| {
      ClosingEnd(str);
      ClosingQuote(s, i);
      return;
    }
    hide Closing;
    ClosingStep(str, p);
    AtParts(s, i, EscapeChar(str[p]), Closing(str, p + 1));
    if p + 1 == |str| && str[p] == BACKSLASH {
      LastBackslash(s, i, str, p);
    } else {
      var e := EscapeChar(str[p]);
      AtFirst(s, i + |e|, Closing(str, p + 1));
      if p + 1 < |str| { ClosingStep(str, p + 1); }
      EscapedKept(s, i + |e|, str, p + 1);
      EscapeSize(str[p]);
      EscapeKept(s, i, str[p]);
      EmitsThen(Inside(s, i), e, Inside(s, i + |e|), Closing(str, p + 1),
                Onward(!EndsInBackslash(str), s, i + |Closing(str, p)|));
    }
  }

  lemma EscapeSize(c: cchar)
    ensures c == BACKSLASH ==> |EscapeChar(c)| == 2
  {
  }

  lemma LastBackslash(s: Str, i: nat, str: Str, p: nat)
    requires p + 1 == |str| && str[p] == BACKSLASH && At(s, i, Closing(str, p))
    ensures Emits(Inside(s, i), Closing(str, p), Inside(s, i + |Closing(str, p)|))
  {
    ClosingStep(str, p);
    ClosingEnd(str);
    AtParts(s, i, [BACKSLASH, BACKSLASH], [QUOTE]);
    MisjudgedQuote(s, i);
  }

  lemma StringKept(s: Str, i: nat, str: Str)
    requires At(s, i, Quoted(str))
    ensures Emits(Outside(s, i), Quoted(str), Onward(!EndsInBackslash(str), s, i + |Quoted(str)|))
  {
    hide Emits, Inside, Outside, At, EscapeFrom;
    assert Quoted(str) == [QUOTE] + Closing(str, 0);
    AtParts(s, i, [QUOTE], Closing(str, 0));
    ClosingQuote(s, i);
    EscapedKept(s, i + 1, str, 0);
    EmitsThen(Outside(s, i), [QUOTE], Inside(s, i + 1), Closing(str, 0),
              Onward(!EndsInBackslash(str), s, i + |Quoted(str)|));
  }

  // ---------------------------------------------------------------- values

  /**
   * What becomes of n characters at i: all of u and then the rest, outside a string when nothing went wrong
   * in them and inside one otherwise; or something that does not start with u.
   */
  ghost predicate Behaves(s: Str, i: nat, n: nat, u: Str, clean: bool, ok: bool) {
    i + n <= |s| && if ok then Emits(Outside(s, i), u, Onward(clean, s, i + n)) else Misses(s, i, u)
  }

  ghost predicate Misses(s: Str, i: nat, u: Str) {
    i <= |s| && !(u <= Outside(s, i))
  }

  lemma PrefixCancel(u: Str, v: Str, m: Str)
    ensures u + v <= u + m <==> v <= m
  {
    if |v| <= |m| {
      assert (u + m)[..|u| + |v|] == u + m[..|v|];
      assert (u + v)[|u|..] == v && (u + m[..|v|])[|u|..] == m[..|v|];
    }
  }

  lemma PrefixShorter(u: Str, v: Str, m: Str)
    ensures u + v <= m ==> u <= m
  {
    if u + v <= m {
      assert m[..|u|] == m[..|u| + |v|][..|u|] == u;
    }
  }

  lemma BehavesThen(s: Str, i: nat, n: nat, u: Str, k: nat, v: Str, clean: bool, ok: bool)
    requires Behaves(s, i, n, u, true, true) && Behaves(s, i + n, k, v, clean, ok)
    ensures Behaves(s, i, n + k, u + v, clean, ok)
  {
    var m, middle := Outside(s, i), Outside(s, i + n);
    if ok {
      hide Emits;
      EmitsThen(m, u, middle, v, Onward(clean, s, i + n + k));
    } else {
      hide Outside;
      PrefixCancel(u, v, middle);
    }
  }

  lemma StaysWrong(s: Str, i: nat, u: Str, v: Str)
    requires Misses(s, i, u)
    ensures Misses(s, i, u + v)
  {
    PrefixShorter(u, v, Outside(s, i));
  }

  lemma WrongIsWrong(s: Str, i: nat, n: nat, u: Str, clean: bool)
    ensures Behaves(s, i, n, u, clean, false) <==> i + n <= |s| && Misses(s, i, u)
  {
  }

  /** Brackets and commas are copied whether the minifier is outside a string or inside one. */
  lemma BehavesOnward(s: Str, i: nat, n: nat, u: Str, clean: bool, t: Str)
    requires Behaves(s, i, n, u, clean, true) && At(s, i + n, t)
    requires forall k :: 0 <= k < |t| ==> Kept(t[k]) && t[k] != BACKSLASH
    ensures Behaves(s, i, n + |t|, u + t, clean, true)
  {
    hide Emits, Outside, Inside;
    if clean { OutsideKeeps(s, i + n, t); } else { InsideKeeps(s, i + n, t); }
    EmitsThen(Outside(s, i), u, Onward(clean, s, i + n), t, Onward(clean, s, i + n + |t|));
  }

  /** A blank is dropped outside a string, and gives the failure away inside one. */
  lemma BehavesBlank(s: Str, i: nat, n: nat, u: Str, clean: bool, blank: cchar)
    requires Behaves(s, i, n, u, clean, true) && At(s, i + n, [blank]) && Blank(blank)
    ensures clean ==> Behaves(s, i, n + 1, u, true, true)
    ensures !clean ==> forall v: Str :: v != [] && v[0] != blank ==> Misses(s, i, u + v)
  {
    if clean {
      hide Emits, Outside;
      OutsideDrops(s, i + n, [blank]);
    } else {
      InsideKeepsOne(s, i + n, blank);
      var m := Outside(s, i);
      assert m[|u|] == blank;
      forall v: Str | v != [] && v[0] != blank ensures Misses(s, i, u + v) {
        assert (u + v)[|u|] == v[0];
      }
    }
  }

  lemma BehavesNot(s: Str, i: nat)
    requires i <= |s|
    ensures Behaves(s, i, 0, [], true, true)
  {
    EmitsNothing(Outside(s, i));
  }

  /** Tokens without blanks, slashes and quotes. */
  lemma TokenKept(s: Str, i: nat, t: Str)
    requires At(s, i, t) && forall k :: 0 <= k < |t| ==> Kept(t[k]) && t[k] != BACKSLASH
    ensures Behaves(s, i, |t|, t, true, true)
  {
    BehavesNot(s, i);
    BehavesOnward(s, i, 0, [], true, t);
    assert [] + t == t;
  }

  lemma BehavesString(s: Str, i: nat, str: Str)
    requires At(s, i, Quoted(str))
    ensures Behaves(s, i, |Quoted(str)|, Quoted(str), !EndsInBackslash(str), true)
  {
    StringKept(s, i, str);
  }

  lemma RenderedHead(d: nat, j: Json)
    ensures Rendered(false, d, j) != [] && !Blank(Rendered(false, d, j)[0])
  {
  }

  lemma {:induction false} ValueMinifies(s: Str, i: nat, d: nat, j: Json)
    requires At(s, i, Rendered(true, d, j))
    ensures Behaves(s, i, |Rendered(true, d, j)|, Rendered(false, d, j), Clean(j), CleanButLast(j))
    decreases j
  {
    hide At, Behaves, Quoted;
    match j
    case Null => TokenKept(s, i, NULL_TEXT);
    case False => TokenKept(s, i, FALSE_TEXT);
    case True => TokenKept(s, i, TRUE_TEXT);
    case Number(n) => TokenKept(s, i, Integer(n));
    case String(str) => BehavesString(s, i, str);
    case Array(items) => ArrayMinifies(s, i, d, j);
    case Object(ms) => ObjectMinifies(s, i, d, j);
  }

  lemma {:induction false} ArrayMinifies(s: Str, i: nat, d: nat, j: Json)
    requires j.Array? && At(s, i, Rendered(true, d, j))
    ensures Behaves(s, i, |Rendered(true, d, j)|, Rendered(false, d, j), Clean(j), CleanButLast(j))
    decreases j, 0
  {
    var f, u := RenderedItems(true, d + 1, j.items), RenderedItems(false, d + 1, j.items);
    var clean, ok := CleanItems(j.items), CleanButLastItem(j.items);
    ArrayAt(s, i, d, j);
    hide At, Behaves, Misses, RenderedItems, Rendered, CleanItems, CleanButLastItem;
    TokenKept(s, i, [OPEN_ARRAY]);
    ItemsMinify(s, i + 1, d + 1, j.items);
    BracketsAround(s, i, |f|, u, clean, ok);
  }

  lemma BracketsAround(s: Str, i: nat, n: nat, u: Str, clean: bool, ok: bool)
    requires Behaves(s, i, 1, [OPEN_ARRAY], true, true) && Behaves(s, i + 1, n, u, clean, ok)
    requires At(s, i + 1 + n, [CLOSE_ARRAY]) && i + 1 + n + 1 <= |s|
    ensures Behaves(s, i, 1 + n + 1, [OPEN_ARRAY] + u + [CLOSE_ARRAY], clean, ok)
  {
    hide At, Behaves, Misses;
    var front := [OPEN_ARRAY] + u;
    BehavesThen(s, i, 1, [OPEN_ARRAY], n, u, clean, ok);
    if ok {
      BehavesOnward(s, i, 1 + n, front, clean, [CLOSE_ARRAY]);
    } else {
      WrongIsWrong(s, i, 1 + n, front, clean);
      StaysWrong(s, i, front, [CLOSE_ARRAY]);
      WrongIsWrong(s, i, 1 + n + 1, front + [CLOSE_ARRAY], clean);
    }
  }

  lemma ArrayAt(s: Str, i: nat, d: nat, j: Json)
    requires j.Array? && At(s, i, Rendered(true, d, j))
    ensures At(s, i, [OPEN_ARRAY]) && At(s, i + 1, RenderedItems(true, d + 1, j.items))
    ensures At(s, i + 1 + |RenderedItems(true, d + 1, j.items)|, [CLOSE_ARRAY])
    ensures |Rendered(true, d, j)| == 1 + |RenderedItems(true, d + 1, j.items)| + 1 <= |s| - i
    ensures Rendered(false, d, j) == [OPEN_ARRAY] + RenderedItems(false, d + 1, j.items) + [CLOSE_ARRAY]
  {
    var f := RenderedItems(true, d + 1, j.items);
    assert Rendered(true, d, j) == [OPEN_ARRAY] + (f + [CLOSE_ARRAY]);
    assert Rendered(false, d, j) == [OPEN_ARRAY] + RenderedItems(false, d + 1, j.items) + [CLOSE_ARRAY];
    hide At, RenderedItems, Rendered;
    AtBound(s, i, Rendered(true, d, j));
    AtParts(s, i, [OPEN_ARRAY], f + [CLOSE_ARRAY]);
    AtParts(s, i + 1, f, [CLOSE_ARRAY]);
  }

  lemma AtBound(s: Str, i: nat, t: Str)
    requires At(s, i, t)
    ensures i + |t| <= |s|
  {
  }

  lemma {:induction false} ItemsMinify(s: Str, i: nat, d: nat, items: seq<Json>)
    requires At(s, i, RenderedItems(true, d, items))
    ensures Behaves(s, i, |RenderedItems(true, d, items)|, RenderedItems(false, d, items),
                    CleanItems(items), CleanButLastItem(items))
    decreases items
  {
    hide At, Behaves, Rendered;
    if items == [] {
      AtBound(s, i, []);
      BehavesNot(s, i);
    } else if |items| == 1 {
      assert items[1..] == [];
      assert RenderedItems(true, d, items) == Rendered(true, d, items[0]);
      assert RenderedItems(false, d, items) == Rendered(false, d, items[0]);
      ValueMinifies(s, i, d, items[0]);
    } else {
      ItemMinifies(s, i, d, items);
    }
  }

  /** An item that is not the last. */
  lemma {:induction false} ItemMinifies(s: Str, i: nat, d: nat, items: seq<Json>)
    requires |items| > 1 && At(s, i, RenderedItems(true, d, items))
    ensures Behaves(s, i, |RenderedItems(true, d, items)|, RenderedItems(false, d, items),
                    CleanItems(items), CleanButLastItem(items))
    decreases items, 0
  {
    var f, u := Rendered(true, d, items[0]), Rendered(false, d, items[0]);
    var fs, us := RenderedItems(true, d, items[1..]), RenderedItems(false, d, items[1..]);
    var clean, ok := Clean(items[0]), CleanButLast(items[0]);
    if clean { CleanIsCleanButLast(items[0]); }
    ItemAt(s, i, d, items);
    hide At, Behaves, RenderedItems, Rendered, Clean, CleanButLast;
    ItemsHead(d, items[1..]);
    ValueMinifies(s, i, d, items[0]);
    if clean { ItemsMinify(s, i + |f| + 1 + 1, d, items[1..]); }
    AfterItem(s, i, f, u, clean, ok, fs, us, CleanItems(items[1..]), CleanButLastItem(items[1..]));
  }

  lemma ItemsApart(d: nat, items: seq<Json>)
    requires |items| > 1
    ensures RenderedItems(true, d, items)
      == Rendered(true, d, items[0]) + ([COMMA] + ([SPACE] + RenderedItems(true, d, items[1..])))
    ensures RenderedItems(false, d, items)
      == Rendered(false, d, items[0]) + [COMMA] + RenderedItems(false, d, items[1..])
  {
    hide Rendered;
  }

  lemma ItemAt(s: Str, i: nat, d: nat, items: seq<Json>)
    requires |items| > 1 && At(s, i, RenderedItems(true, d, items))
    ensures var n := |Rendered(true, d, items[0])|;
      At(s, i, Rendered(true, d, items[0])) && At(s, i + n, [COMMA]) && At(s, i + n + 1, [SPACE])
      && At(s, i + n + 1 + 1, RenderedItems(true, d, items[1..]))
      && |RenderedItems(true, d, items)| == n + 1 + 1 + |RenderedItems(true, d, items[1..])| <= |s| - i
    ensures RenderedItems(false, d, items)
      == Rendered(false, d, items[0]) + [COMMA] + RenderedItems(false, d, items[1..])
  {
    var f, fs := Rendered(true, d, items[0]), RenderedItems(true, d, items[1..]);
    hide Rendered, At;
    ItemsApart(d, items);
    hide RenderedItems;
    AtBound(s, i, RenderedItems(true, d, items));
    AtParts(s, i, f, [COMMA] + ([SPACE] + fs));
    AtParts(s, i + |f|, [COMMA], [SPACE] + fs);
    AtParts(s, i + |f| + 1, [SPACE], fs);
  }

  /** The rest of an array behind an item. */
  lemma AfterItem(s: Str, i: nat, f: Str, u: Str, clean: bool, ok: bool, fs: Str, us: Str, cleans: bool, oks: bool)
    requires Behaves(s, i, |f|, u, clean, ok) && (clean ==> ok) && i + |f| + 1 + 1 + |fs| <= |s|
    requires At(s, i + |f|, [COMMA]) && At(s, i + |f| + 1, [SPACE]) && us != [] && !Blank(us[0])
    requires clean ==> Behaves(s, i + |f| + 1 + 1, |fs|, us, cleans, oks)
    ensures Behaves(s, i, |f| + 1 + 1 + |fs|, u + [COMMA] + us, clean && cleans, clean && oks)
  {
    hide At, Behaves, Misses;
    if ok {
      BehavesOnward(s, i, |f|, u, clean, [COMMA]);
      BehavesBlank(s, i, |f| + 1, u + [COMMA], clean, SPACE);
      if clean {
        BehavesThen(s, i, |f| + 1 + 1, u + [COMMA], |fs|, us, cleans, oks);
      } else {
        assert Misses(s, i, u + [COMMA] + us);
        WrongIsWrong(s, i, |f| + 1 + 1 + |fs|, u + [COMMA] + us, false);
      }
    } else {
      WrongIsWrong(s, i, |f|, u, clean);
      StaysWrong(s, i, u, [COMMA]);
      StaysWrong(s, i, u + [COMMA], us);
      WrongIsWrong(s, i, |f| + 1 + 1 + |fs|, u + [COMMA] + us, false);
    }
  }

  lemma ItemsHead(d: nat, items: seq<Json>)
    requires items != []
    ensures RenderedItems(false, d, items) != [] && !Blank(RenderedItems(false, d, items)[0])
  {
    RenderedHead(d, items[0]);
  }

  lemma BlanksDropped(s: Str, i: nat, t: Str)
    requires At(s, i, t) && forall k :: 0 <= k < |t| ==> Blank(t[k])
    ensures Behaves(s, i, |t|, [], true, true)
  {
    OutsideDrops(s, i, t);
    EmitsNothing(Outside(s, i));
  }

  /** The members from some point on, with the closing brace. */
  function Rest(format: bool, d: nat, ms: Members): (t: Str)
  {
    var closing := When(format, Tabs(d)) + [CLOSE_OBJECT];
    if ms == [] then closing else RenderedMembers(format, d + 1, ms) + closing
  }

  lemma RestHead(d: nat, ms: Members)
    ensures Rest(false, d, ms) != [] && !Blank(Rest(false, d, ms)[0])
  {
    if ms == [] {
      assert Rest(false, d, ms) == [] + [CLOSE_OBJECT];
    } else {
      var m, last := ms[0], |ms| == 1;
      MemberParts(d + 1, m, last);
      assert RenderedMember(false, d + 1, m, last)[0] == QUOTE;
      RestStep(false, d, ms);
    }
  }

  lemma RestStep(format: bool, d: nat, ms: Members)
    requires ms != []
    ensures Rest(format, d, ms) == RenderedMember(format, d + 1, ms[0], |ms| == 1) + Rest(format, d, ms[1..])
  {
    hide RenderedMember, Tabs, When;
    var f, closing := RenderedMember(format, d + 1, ms[0], |ms| == 1), When(format, Tabs(d)) + [CLOSE_OBJECT];
    assert f + RenderedMembers(format, d + 1, ms[1..]) + closing == f + (RenderedMembers(format, d + 1, ms[1..]) + closing);
    assert f + [] == f;
  }

  lemma {:induction false} ObjectMinifies(s: Str, i: nat, d: nat, j: Json)
    requires j.Object? && At(s, i, Rendered(true, d, j))
    ensures Behaves(s, i, |Rendered(true, d, j)|, Rendered(false, d, j), Clean(j), CleanButLast(j))
    decreases j, 0
  {
    ObjectParts(d, j);
    var f, u := Rest(true, d, j.members), Rest(false, d, j.members);
    hide At, Behaves, Rest, Rendered;
    AtParts(s, i, [OPEN_OBJECT], [NEWLINE] + f);
    AtParts(s, i + 1, [NEWLINE], f);
    TokenKept(s, i, [OPEN_OBJECT]);
    BehavesBlank(s, i, 1, [OPEN_OBJECT], true, NEWLINE);
    RestMinifies(s, i + 1 + 1, d, j.members);
    BehavesThen(s, i, 1 + 1, [OPEN_OBJECT], |f|, u, Clean(j), Clean(j));
  }

  lemma ObjectParts(d: nat, j: Json)
    requires j.Object?
    ensures Rendered(true, d, j) == [OPEN_OBJECT] + ([NEWLINE] + Rest(true, d, j.members))
    ensures Rendered(false, d, j) == [OPEN_OBJECT] + Rest(false, d, j.members)
  {
    hide Tabs;
    assert forall t: Str :: [] + t == t;
    assert RenderedMembers(false, d + 1, []) == RenderedMembers(true, d + 1, []) == [];
    hide RenderedMembers;
  }

  lemma {:induction false} RestMinifies(s: Str, i: nat, d: nat, ms: Members)
    requires At(s, i, Rest(true, d, ms))
    ensures Behaves(s, i, |Rest(true, d, ms)|, Rest(false, d, ms), CleanMembers(ms), CleanMembers(ms))
    decreases ms
  {
    hide At, Behaves, Misses, RenderedMember, Rest;
    if ms == [] {
      ClosingMinifies(s, i, d);
      return;
    }
    var last, rest, us := |ms| == 1, Rest(true, d, ms[1..]), Rest(false, d, ms[1..]);
    var f, u := RenderedMember(true, d + 1, ms[0], last), RenderedMember(false, d + 1, ms[0], last);
    RestAt(s, i, d, ms);
    RestHead(d, ms[1..]);
    MemberMinifies(s, i, d + 1, ms[0], last, us);
    if CleanMember(ms[0]) {
      RestMinifies(s, i + |f|, d, ms[1..]);
      BehavesThen(s, i, |f|, u, |rest|, us, CleanMembers(ms[1..]), CleanMembers(ms[1..]));
    } else {
      WrongIsWrong(s, i, |f| + |rest|, u + us, false);
    }
  }

  lemma ClosingMinifies(s: Str, i: nat, d: nat)
    requires At(s, i, Rest(true, d, []))
    ensures Behaves(s, i, |Rest(true, d, [])|, Rest(false, d, []), true, true)
  {
    assert Rest(true, d, []) == Tabs(d) + [CLOSE_OBJECT];
    assert Rest(false, d, []) == [] + [CLOSE_OBJECT];
    hide At, Behaves, Rest;
    AtParts(s, i, Tabs(d), [CLOSE_OBJECT]);
    BlanksDropped(s, i, Tabs(d));
    BehavesOnward(s, i, d, [], true, [CLOSE_OBJECT]);
  }

  lemma RestAt(s: Str, i: nat, d: nat, ms: Members)
    requires ms != [] && At(s, i, Rest(true, d, ms))
    ensures var n := |RenderedMember(true, d + 1, ms[0], |ms| == 1)|;
      At(s, i, RenderedMember(true, d + 1, ms[0], |ms| == 1)) && At(s, i + n, Rest(true, d, ms[1..]))
      && |Rest(true, d, ms)| == n + |Rest(true, d, ms[1..])| <= |s| - i
    ensures Rest(false, d, ms) == RenderedMember(false, d + 1, ms[0], |ms| == 1) + Rest(false, d, ms[1..])
  {
    hide At, RenderedMember, Rest;
    RestStep(true, d, ms);
    RestStep(false, d, ms);
    AtBound(s, i, Rest(true, d, ms));
    AtParts(s, i, RenderedMember(true, d + 1, ms[0], |ms| == 1), Rest(true, d, ms[1..]));
  }

  predicate CleanMember(m: Member<Json>) {
    !EndsInBackslash(m.key) && Clean(m.value)
  }

  lemma MemberParts(d: nat, m: Member<Json>, last: bool)
    ensures RenderedMember(true, d, m, last)
      == Tabs(d) + (Quoted(m.key) + ([COLON] + ([TAB] + (Rendered(true, d, m.value) + (When(!last, [COMMA]) + [NEWLINE])))))
    ensures RenderedMember(false, d, m, last)
      == Quoted(m.key) + [COLON] + Rendered(false, d, m.value) + When(!last, [COMMA])
  {
    hide Rendered, Quoted, Tabs;
    MemberShort(d, m, last);
  }

  lemma MemberShort(d: nat, m: Member<Json>, last: bool)
    ensures RenderedMember(false, d, m, last)
      == Quoted(m.key) + [COLON] + Rendered(false, d, m.value) + When(!last, [COMMA])
  {
    hide Rendered, Quoted, Tabs;
  }

  lemma MemberAt(s: Str, i: nat, d: nat, m: Member<Json>, last: bool)
    requires At(s, i, RenderedMember(true, d, m, last))
    ensures At(s, i, Tabs(d)) && At(s, i + |Tabs(d)|, Quoted(m.key))
    ensures var n := |Tabs(d)| + |Quoted(m.key)| + 1;
      At(s, i + n - 1, [COLON]) && At(s, i + n, [TAB]) && At(s, i + n + 1, Rendered(true, d, m.value))
      && At(s, i + n + 1 + |Rendered(true, d, m.value)|, When(!last, [COMMA]) + [NEWLINE])
      && |RenderedMember(true, d, m, last)| == n + 1 + |Rendered(true, d, m.value)| + |When(!last, [COMMA]) + [NEWLINE]|
  {
    MemberParts(d, m, last);
    var tabs, key, f, tail := Tabs(d), Quoted(m.key), Rendered(true, d, m.value), When(!last, [COMMA]) + [NEWLINE];
    hide At, RenderedMember, Rendered, Quoted, Tabs, When;
    AtParts(s, i, tabs, key + ([COLON] + ([TAB] + (f + tail))));
    AtParts(s, i + |tabs|, key, [COLON] + ([TAB] + (f + tail)));
    AtParts(s, i + |tabs| + |key|, [COLON], [TAB] + (f + tail));
    AtParts(s, i + |tabs| + |key| + 1, [TAB], f + tail);
    AtParts(s, i + |tabs| + |key| + 1 + 1, f, tail);
  }

  /** One member, with v the text that follows it in the unformatted print. */
  lemma {:induction false} MemberMinifies(s: Str, i: nat, d: nat, m: Member<Json>, last: bool, v: Str)
    requires At(s, i, RenderedMember(true, d, m, last)) && v != [] && !Blank(v[0])
    ensures CleanMember(m) ==>
      Behaves(s, i, |RenderedMember(true, d, m, last)|, RenderedMember(false, d, m, last), true, true)
    ensures !CleanMember(m) ==> Misses(s, i, RenderedMember(false, d, m, last) + v)
    decreases m
  {
    hide At, Behaves, Misses, Rendered, RenderedMember, Quoted, Tabs, EndsInBackslash, Clean, CleanButLast, When;
    MemberAt(s, i, d, m, last);
    MemberShort(d, m, last);
    KeyMinifies(s, i, d, m.key);
    var n, f := |Tabs(d)| + |Quoted(m.key)| + 1, Rendered(true, d, m.value);
    RenderedHead(d, m.value);
    if Clean(m.value) { CleanIsCleanButLast(m.value); }
    ValueMinifies(s, i + n + 1, d, m.value);
    AfterKey(s, i, n, Quoted(m.key) + [COLON], !EndsInBackslash(m.key),
             f, Rendered(false, d, m.value), Clean(m.value), CleanButLast(m.value), last, v);
  }

  /** The rest of a member, whose key and colon are n characters of text: a blank, the value and the tail. */
  lemma AfterKey(s: Str, i: nat, n: nat, head: Str, keyClean: bool, f: Str, u: Str, clean: bool, ok: bool,
        last: bool, v: Str)
    requires Behaves(s, i, n, head, keyClean, true) && At(s, i + n, [TAB])
    requires Behaves(s, i + n + 1, |f|, u, clean, ok) && (clean ==> ok) && u != [] && !Blank(u[0])
    requires At(s, i + n + 1 + |f|, When(!last, [COMMA]) + [NEWLINE]) && v != [] && !Blank(v[0])
    ensures keyClean && clean ==>
      Behaves(s, i, n + 1 + |f| + |When(!last, [COMMA]) + [NEWLINE]|, head + u + When(!last, [COMMA]), true, true)
    ensures !(keyClean && clean) ==> Misses(s, i, head + u + When(!last, [COMMA]) + v)
  {
    hide At, Behaves, Misses, When;
    BehavesBlank(s, i, n, head, keyClean, TAB);
    if keyClean {
      BehavesThen(s, i, n + 1, head, |f|, u, clean, ok);
      TailMinifies(s, i, n + 1 + |f|, head + u, clean, ok, last, v);
    } else {
      assert Misses(s, i, head + u);
      StaysWrong(s, i, head + u, When(!last, [COMMA]));
      StaysWrong(s, i, head + u + When(!last, [COMMA]), v);
    }
  }

  lemma KeyMinifies(s: Str, i: nat, d: nat, key: Str)
    requires At(s, i, Tabs(d)) && At(s, i + |Tabs(d)|, Quoted(key)) && At(s, i + |Tabs(d)| + |Quoted(key)|, [COLON])
    ensures Behaves(s, i, |Tabs(d)| + |Quoted(key)| + 1, Quoted(key) + [COLON], !EndsInBackslash(key), true)
  {
    hide At, Behaves, Quoted;
    BlanksDropped(s, i, Tabs(d));
    BehavesString(s, i + |Tabs(d)|, key);
    BehavesThen(s, i, |Tabs(d)|, [], |Quoted(key)|, Quoted(key), !EndsInBackslash(key), true);
    assert [] + Quoted(key) == Quoted(key);
    BehavesOnward(s, i, |Tabs(d)| + |Quoted(key)|, Quoted(key), !EndsInBackslash(key), [COLON]);
  }

  lemma TailMinifies(s: Str, i: nat, n: nat, u: Str, clean: bool, ok: bool, last: bool, v: Str)
    requires Behaves(s, i, n, u, clean, ok) && (clean ==> ok) && v != [] && !Blank(v[0])
    requires At(s, i + n, When(!last, [COMMA]) + [NEWLINE])
    ensures clean ==> Behaves(s, i, n + |When(!last, [COMMA]) + [NEWLINE]|, u + When(!last, [COMMA]), true, true)
    ensures !clean ==> Misses(s, i, u + When(!last, [COMMA]) + v)
  {
    var comma := When(!last, [COMMA]);
    if ok {
      hide At, Behaves, Misses;
      AtParts(s, i + n, comma, [NEWLINE]);
      BehavesOnward(s, i, n, u, clean, comma);
      BehavesBlank(s, i, n + |comma|, u + comma, clean, NEWLINE);
    } else {
      hide At, Misses;
      WrongIsWrong(s, i, n, u, clean);
      StaysWrong(s, i, u, comma);
      StaysWrong(s, i, u + comma, v);
    }
  }

  // ---------------------------------------------------------------- main theorem

  /**
   * Minifying the formatted print of a tree yields its unformatted print exactly when no string and no key ends
   * with a backslash, except perhaps the one string that only closing brackets follow.
   */
  lemma MinifiedPrint(j: Json)
    ensures Minified(Rendered(true, 0, j)) == Rendered(false, 0, j) <==> CleanButLast(j)
  {
    var s, u := Rendered(true, 0, j), Rendered(false, 0, j);
    assert At(s, 0, s) by { assert s[0..|s|] == s; }
    ValueMinifies(s, 0, 0, j);
    hide Rendered, CleanButLast, Clean;
    if CleanButLast(j) {
      assert Onward(Clean(j), s, |s|) == [];
      assert u + [] == u;
    }
  }

  /** In place: what is left in the buffer of a formatted print. */
  method MinifyPrinted(a: array<byte>, ghost j: Json)
    requires |Rendered(true, 0, j)| < a.Length && a[..|Rendered(true, 0, j)|] == Rendered(true, 0, j)
    requires a[|Rendered(true, 0, j)|] == 0 && CleanButLast(j)
    modifies a
    ensures |Rendered(false, 0, j)| < a.Length && a[..|Rendered(false, 0, j)|] == Rendered(false, 0, j)
    ensures a[|Rendered(false, 0, j)|] == 0
  {
    hide Rendered;
    MinifiedPrint(j);
    MinifyInPlace(a, Rendered(true, 0, j));
  }

  /** An array of a string ending with a backslash and a number keeps its blank. */
  lemma MisjudgedExample()
    ensures Minified(Rendered(true, 0, Array([String([BACKSLASH]), Null]))) != Rendered(false, 0, Array([String([BACKSLASH]), Null]))
  {
    MinifiedPrint(Array([String([BACKSLASH]), Null]));
  }
}
