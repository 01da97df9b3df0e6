/** The grammar the parser accepts, and that it accepts exactly that. */
module Grammar {
  import opened Text
  import opened Json
  import opened Print
  import opened Parse
  import PP = ParsePrint

  /** Only white space, which for this parser is every byte up to 32. */
  ghost predicate White(s: Bytes, p: nat, q: nat) {
    p <= q <= |s| && forall k :: p <= k < q ==> s[k] <= ' ' as int
  }

  ghost predicate Mark(s: Bytes, p: nat, c: char) {
    p < |s| && s[p] == c as int
  }

  predicate Word(s: Bytes, p: nat, q: nat, word: string) {
    q == p + |word| <= |s| && forall i :: 0 <= i < |word| ==> s[p + i] == word[i] as int
  }

  predicate Figure(c: byte) {
    '0' as int <= c <= '9' as int
  }

  /** A number beyond the 32-bit integers stands for the nearest of them. */
  function Nearest(n: int): int {
    if n > 0x7fff_ffff then 0x7fff_ffff else if n < -0x8000_0000 then -0x8000_0000 else n
  }

  /** A sign or none, and as many figures as there are, up to 63 bytes in all. */
  ghost predicate NumberText(s: Bytes, p: nat, q: nat, n: int) {
    p < q <= |s| && q - p <= 63 && (q == |s| || q == p + 63 || !Figure(s[q]))
    && var first := if s[p] == '-' as int then p + 1 else p;
      first < q && (forall k :: first <= k < q ==> Figure(s[k]))
      && n == Nearest(if first == p then Numeral(s[first..q]) else -Numeral(s[first..q]))
  }

  ghost predicate StringText(s: Bytes, p: nat, q: nat, t: Str) {
    ReadString(s, p) == Some(Read(t, q))
  }

  /** The bytes from p to q are a JSON text for j. */
  ghost predicate Writing(s: Bytes, p: nat, q: nat, j: Json)
    decreases j, 0
  {
    match j
    case Null => Word(s, p, q, "null")
    case False => Word(s, p, q, "false")
    case True => Word(s, p, q, "true")
    case Number(n) => NumberText(s, p, q, n)
    case String(t) => StringText(s, p, q, t)
    case Array(items) => p + 1 < q && Mark(s, p, '[') && Mark(s, q - 1, ']') && Items(s, p + 1, q - 1, items)
    case Object(ms) => p + 1 < q && Mark(s, p, '{') && Mark(s, q - 1, '}') && MemberList(s, p + 1, q - 1, ms)
  }

  /** What stands between the brackets. */
  ghost predicate Items(s: Bytes, p: nat, q: nat, items: seq<Json>)
    decreases items, 2
  {
    if items == [] then White(s, p, q) else exists a: nat, b: nat :: FirstItem(s, p, a, b, items[0]) && MoreItems(s, b, q, items)
  }

  ghost predicate FirstItem(s: Bytes, p: nat, a: nat, b: nat, item: Json)
    decreases item, 1
  {
    White(s, p, a) && Writing(s, a, b, item)
  }

  ghost predicate MoreItems(s: Bytes, b: nat, q: nat, items: seq<Json>)
    requires items != []
    decreases items, 1
  {
    if |items| == 1 then White(s, b, q) else exists c: nat :: Comma(s, b, c) && Items(s, c + 1, q, items[1..])
  }

  ghost predicate Comma(s: Bytes, b: nat, c: nat) {
    White(s, b, c) && Mark(s, c, ',')
  }

  /** What stands between the braces. */
  ghost predicate MemberList(s: Bytes, p: nat, q: nat, ms: Members)
    decreases ms, 2
  {
    if ms == [] then White(s, p, q) else exists b: nat :: MemberText(s, p, b, ms[0]) && MoreMembers(s, b, q, ms)
  }

  ghost predicate MemberText(s: Bytes, p: nat, q: nat, m: Member<Json>)
    decreases m, 1
  {
    exists c: nat, d: nat :: Name(s, p, c, m.key) && White(s, c + 1, d) && Writing(s, d, q, m.value)
  }

  /** A name and its colon at c. */
  ghost predicate Name(s: Bytes, p: nat, c: nat, key: Str) {
    exists a: nat, b: nat :: White(s, p, a) && StringText(s, a, b, key) && White(s, b, c) && Mark(s, c, ':')
  }

  ghost predicate MoreMembers(s: Bytes, b: nat, q: nat, ms: Members)
    requires ms != []
    decreases ms, 1
  {
    if |ms| == 1 then White(s, b, q) else exists c: nat :: Comma(s, b, c) && MemberList(s, c + 1, q, ms[1..])
  }

  // ---------------------------------------------------------------- white space

  lemma SkipWhite(s: Bytes, off: nat)
    requires off <= |s|
    ensures White(s, off, Skip(s, off))
  {
  }

  lemma {:induction false} WhiteSkips(s: Bytes, off: nat, q: nat)
    requires White(s, off, q) && q < |s| && s[q] > 32
    ensures Skip(s, off) == q
    decreases q - off
  {
    if off < q {
      WhiteSkips(s, off + 1, q);
    }
  }

  // ---------------------------------------------------------------- numbers

  lemma {:induction false} FiguresValue(s: Bytes, p: nat, q: nat)
    requires p <= q <= |s| && forall k :: p <= k < q ==> DigitByte(s[k])
    ensures DecimalValue(s, p, q) == Numeral(s[p..q])
    decreases q
  {
    if p < q {
      FiguresValue(s, p, q - 1);
      assert s[p..q][..q - p - 1] == s[p..q - 1];
    }
  }

  lemma {:induction false} FiguresEnd(s: Bytes, p: nat, q: nat, limit: nat)
    requires p <= q <= limit <= |s| && (forall k :: p <= k < q ==> Figure(s[k])) && (q == limit || !Figure(s[q]))
    ensures DigitsEnd(s, p, limit) == q
    decreases q - p
  {
    if p < q { FiguresEnd(s, p + 1, q, limit); }
  }

  lemma NumberExact(s: Bytes, p: nat, n: int32, q: nat)
    requires p < |s|
    ensures ReadNumber(s, p) == Some(Read(Number(n), q)) <==> NumberText(s, p, q, n)
  {
    var limit := if p + 63 <= |s| then p + 63 else |s|;
    var first := if s[p] == MINUS then p + 1 else p;
    if NumberText(s, p, q, n) { FiguresEnd(s, first, q, limit); }
    var end := DigitsEnd(s, first, limit);
    FiguresValue(s, first, end);
    hide DigitsEnd, DecimalValue, Numeral;
  }

  // ---------------------------------------------------------------- whatever is read is in the grammar

  lemma WordAt(s: Bytes, p: nat, word: string, t: Str)
    requires |t| == |word| && forall i :: 0 <= i < |t| ==> t[i] == word[i] as int
    ensures StartsWith(s, p, t) <==> Word(s, p, p + |t|, word)
  {
    if p + |t| <= |s| {
      assert forall i {:trigger t[i]} :: 0 <= i < |t| ==> s[p..p + |t|][i] == s[p + i];
    }
  }

  lemma WordStarts(s: Bytes, p: nat)
    ensures StartsWith(s, p, NULL_TEXT) <==> Word(s, p, p + 4, "null")
    ensures StartsWith(s, p, FALSE_TEXT) <==> Word(s, p, p + 5, "false")
    ensures StartsWith(s, p, TRUE_TEXT) <==> Word(s, p, p + 4, "true")
  {
    WordAt(s, p, "null", NULL_TEXT);
    WordAt(s, p, "false", FALSE_TEXT);
    WordAt(s, p, "true", TRUE_TEXT);
    hide StartsWith, Word;
  }

  /** Which reader a value came from. */
  lemma ReadBy(s: Bytes, off: nat, depth: nat, j: Json, next: nat)
    requires ReadValue(s, off, depth) == Some(Read(j, next))
    ensures off < |s| && match j
      case Null => StartsWith(s, off, NULL_TEXT) && next == off + 4
      case False => StartsWith(s, off, FALSE_TEXT) && next == off + 5
      case True => StartsWith(s, off, TRUE_TEXT) && next == off + 4
      case Number(n) => ReadNumber(s, off) == Some(Read(Number(n), next))
      case String(t) => ReadString(s, off) == Some(Read(t, next))
      case Array(items) => HasByte(s, off, OPEN_ARRAY) && ReadArray(s, off, depth) == Some(Read(j, next))
      case Object(ms) => HasByte(s, off, OPEN_OBJECT) && ReadObject(s, off, depth) == Some(Read(j, next))
  {
    hide ReadString, ReadItems, ReadMembers, DigitsEnd, DecimalValue, Saturated;
  }

  lemma ArrayFrom(s: Bytes, off: nat, depth: nat, items: seq<Json>, next: nat)
    requires off < |s| && ReadArray(s, off, depth) == Some(Read(Array(items), next))
    ensures depth < NESTING_LIMIT && off + 1 < next
    ensures var first := Skip(s, off + 1);
      if items == [] then HasByte(s, first, CLOSE_ARRAY) && next == first + 1
      else ReadItems(s, first, depth + 1) == Some(Read(items, next))
  {
    ItemsNotEmpty(s, Skip(s, off + 1), depth + 1);
    hide ReadItems;
  }

  lemma ItemsNotEmpty(s: Bytes, off: nat, depth: nat)
    requires off <= |s|
    ensures ReadItems(s, off, depth).Some? ==> ReadItems(s, off, depth).value.value != []
  {
    hide ReadValue;
  }

  lemma ObjectFrom(s: Bytes, off: nat, depth: nat, ms: Members, next: nat)
    requires off < |s| && ReadObject(s, off, depth) == Some(Read(Object(ms), next))
    ensures depth < NESTING_LIMIT && off + 1 < next
    ensures var first := Skip(s, off + 1);
      if ms == [] then HasByte(s, first, CLOSE_OBJECT) && next == first + 1
      else ReadMembers(s, first, depth + 1) == Some(Read(ms, next))
  {
    MembersNotEmpty(s, Skip(s, off + 1), depth + 1);
    hide ReadMembers;
  }

  lemma MembersNotEmpty(s: Bytes, off: nat, depth: nat)
    requires off <= |s|
    ensures ReadMembers(s, off, depth).Some? ==> ReadMembers(s, off, depth).value.value != []
  {
    hide ReadMember;
  }

  /** What one round of the item loop saw. */
  lemma ItemsFrom(s: Bytes, off: nat, depth: nat, items: seq<Json>, next: nat) returns (b: nat, c: nat)
    requires off <= |s| && items != [] && ReadItems(s, off, depth) == Some(Read(items, next))
    ensures ReadValue(s, Skip(s, off), depth) == Some(Read(items[0], b)) && b <= |s| && c == Skip(s, b)
    ensures if |items| == 1 then HasByte(s, c, CLOSE_ARRAY) && next == c + 1
            else HasByte(s, c, COMMA) && ReadItems(s, c + 1, depth) == Some(Read(items[1..], next))
  {
    hide ReadValue, Skip;
    b := ReadValue(s, Skip(s, off), depth).value.next;
    c := Skip(s, b);
    if HasByte(s, c, COMMA) {
      ItemsNotEmpty(s, c + 1, depth);
      var rest := ReadItems(s, c + 1, depth);
      assert items == [items[0]] + rest.value.value;
      assert items[1..] == rest.value.value;
    }
  }

  lemma MembersFrom(s: Bytes, off: nat, depth: nat, ms: Members, next: nat) returns (b: nat, c: nat)
    requires off <= |s| && ms != [] && ReadMembers(s, off, depth) == Some(Read(ms, next))
    ensures ReadMember(s, off, depth) == Some(Read(ms[0], b)) && b <= |s| && c == Skip(s, b)
    ensures if |ms| == 1 then HasByte(s, c, CLOSE_OBJECT) && next == c + 1
            else HasByte(s, c, COMMA) && ReadMembers(s, c + 1, depth) == Some(Read(ms[1..], next))
  {
    hide ReadMember, Skip;
    b := ReadMember(s, off, depth).value.next;
    c := Skip(s, b);
    if HasByte(s, c, COMMA) {
      MembersNotEmpty(s, c + 1, depth);
      var rest := ReadMembers(s, c + 1, depth);
      assert ms == [ms[0]] + rest.value.value;
      assert ms[1..] == rest.value.value;
    }
  }

  lemma MemberFrom(s: Bytes, off: nat, depth: nat, m: Member<Json>, next: nat) returns (b: nat, c: nat)
    requires off <= |s| && ReadMember(s, off, depth) == Some(Read(m, next))
    ensures StringText(s, Skip(s, off), b, m.key) && b <= |s| && c == Skip(s, b) && HasByte(s, c, COLON)
    ensures ReadValue(s, Skip(s, c + 1), depth) == Some(Read(m.value, next))
  {
    b := ReadString(s, Skip(s, off)).value.next;
    c := Skip(s, b);
    hide ReadValue, ReadString;
  }

  lemma MemberIsText(s: Bytes, off: nat, m: Member<Json>, b: nat, c: nat, next: nat)
    requires off <= |s| && StringText(s, Skip(s, off), b, m.key) && b <= |s| && c == Skip(s, b) && HasByte(s, c, COLON)
    requires Writing(s, Skip(s, c + 1), next, m.value)
    ensures MemberText(s, off, next, m)
  {
    hide StringText, Writing, Skip;
    SkipWhite(s, off);
    SkipWhite(s, b);
    SkipWhite(s, c + 1);
    assert Name(s, off, c, m.key);
  }

  lemma Nestings(items: seq<Json>, ms: Members)
    ensures Nesting(Array(items)) == 1 + NestingItems(items) && Nesting(Object(ms)) == 1 + NestingMembers(ms)
    ensures items != [] ==> NestingItems(items) == Max(Nesting(items[0]), NestingItems(items[1..]))
    ensures ms != [] ==> NestingMembers(ms) == Max(Nesting(ms[0].value), NestingMembers(ms[1..]))
    ensures NestingItems([]) == 0 == NestingMembers([])
  {
  }

  lemma {:induction false} ReadIsWriting(s: Bytes, off: nat, depth: nat, j: Json, next: nat)
    requires ReadValue(s, off, depth) == Some(Read(j, next))
    requires depth <= NESTING_LIMIT
    ensures Writing(s, off, next, j) && depth + Nesting(j) <= NESTING_LIMIT
    decreases j, 0
  {
    ReadBy(s, off, depth, j, next);
    WordStarts(s, off);
    hide ReadValue, ReadArray, ReadObject, ReadNumber, ReadString, NumberText, StartsWith, Word;
    match j {
      case Number(n) => NumberExact(s, off, n, next);
      case Array(items) => ArrayIsWriting(s, off, depth, items, next);
      case Object(ms) => ObjectIsWriting(s, off, depth, ms, next);
      case _ =>
    }
  }

  lemma {:induction false} ArrayIsWriting(s: Bytes, off: nat, depth: nat, items: seq<Json>, next: nat)
    requires HasByte(s, off, OPEN_ARRAY) && ReadArray(s, off, depth) == Some(Read(Array(items), next))
    ensures Writing(s, off, next, Array(items)) && depth + Nesting(Array(items)) <= NESTING_LIMIT
    decreases items, 3
  {
    hide ReadArray, ReadItems, Skip, Nesting, NestingItems, NestingMembers, Items, MemberList, Writing, White;
    ArrayFrom(s, off, depth, items, next);
    Nestings(items, []);
    SkipWhite(s, off + 1);
    var first := Skip(s, off + 1);
    Brackets(s, off, next, items, []);
    if items != [] {
      ItemsAreWriting(s, first, depth + 1, items, next);
      WiderItems(s, off + 1, first, next - 1, items);
    }
  }

  lemma Brackets(s: Bytes, p: nat, q: nat, items: seq<Json>, ms: Members)
    requires p + 1 < q
    ensures Writing(s, p, q, Array(items)) <==> Mark(s, p, '[') && Mark(s, q - 1, ']') && Items(s, p + 1, q - 1, items)
    ensures Writing(s, p, q, Object(ms)) <==> Mark(s, p, '{') && Mark(s, q - 1, '}') && MemberList(s, p + 1, q - 1, ms)
    ensures Items(s, p + 1, q - 1, []) == White(s, p + 1, q - 1) == MemberList(s, p + 1, q - 1, [])
  {
    hide FirstItem, MoreItems, MemberText, MoreMembers;
  }

  lemma WhiteTwice(s: Bytes, p: nat, q: nat, r: nat)
    requires White(s, p, q) && White(s, q, r)
    ensures White(s, p, r)
  {
  }

  lemma WiderItems(s: Bytes, p: nat, first: nat, q: nat, items: seq<Json>)
    requires items != [] && White(s, p, first) && Items(s, first, q, items)
    ensures Items(s, p, q, items)
  {
    hide Writing, MoreItems;
    var a: nat, b: nat :| FirstItem(s, first, a, b, items[0]) && MoreItems(s, b, q, items);
    WhiteTwice(s, p, first, a);
    hide White;
    assert FirstItem(s, p, a, b, items[0]);
  }

  /** A list from its first item and the rest. */
  lemma ItemsAre(s: Bytes, p: nat, a: nat, b: nat, c: nat, q: nat, items: seq<Json>)
    requires items != [] && White(s, p, a) && Writing(s, a, b, items[0]) && White(s, b, c)
    requires if |items| == 1 then c == q else Mark(s, c, ',') && Items(s, c + 1, q, items[1..])
    ensures Items(s, p, q, items)
  {
    hide Writing, White;
    assert FirstItem(s, p, a, b, items[0]);
    if |items| > 1 { assert Comma(s, b, c); }
    assert MoreItems(s, b, q, items);
  }

  lemma {:induction false} ItemsAreWriting(s: Bytes, off: nat, depth: nat, items: seq<Json>, next: nat)
    requires off <= |s| && items != [] && ReadItems(s, off, depth) == Some(Read(items, next)) && depth <= NESTING_LIMIT
    ensures 0 < next && Mark(s, next - 1, ']') && Items(s, off, next - 1, items)
    ensures depth + NestingItems(items) <= NESTING_LIMIT
    decreases items, 2
  {
    hide ReadItems, ReadValue, Skip, White, Nesting, NestingItems, NestingMembers, Writing, Items;
    var b, c := ItemsFrom(s, off, depth, items, next);
    Nestings(items, []);
    SkipWhite(s, off);
    SkipWhite(s, b);
    ReadIsWriting(s, Skip(s, off), depth, items[0], b);
    if |items| > 1 {
      ItemsAreWriting(s, c + 1, depth, items[1..], next);
    } else {
      assert items[1..] == [];
    }
    ItemsAre(s, off, Skip(s, off), b, c, next - 1, items);
  }

  lemma {:induction false} ObjectIsWriting(s: Bytes, off: nat, depth: nat, ms: Members, next: nat)
    requires HasByte(s, off, OPEN_OBJECT) && ReadObject(s, off, depth) == Some(Read(Object(ms), next))
    ensures Writing(s, off, next, Object(ms)) && depth + Nesting(Object(ms)) <= NESTING_LIMIT
    decreases ms, 3
  {
    hide ReadObject, ReadMembers, Skip, Nesting, NestingItems, NestingMembers, Items, MemberList, Writing, White;
    ObjectFrom(s, off, depth, ms, next);
    Nestings([], ms);
    SkipWhite(s, off + 1);
    var first := Skip(s, off + 1);
    Brackets(s, off, next, [], ms);
    if ms != [] {
      MembersAreWriting(s, first, depth + 1, ms, next);
      WiderMembers(s, off + 1, first, next - 1, ms);
    }
  }

  lemma WiderName(s: Bytes, p: nat, first: nat, c: nat, key: Str)
    requires White(s, p, first) && Name(s, first, c, key)
    ensures Name(s, p, c, key)
  {
    var x: nat, y: nat :| White(s, first, x) && StringText(s, x, y, key) && White(s, y, c) && Mark(s, c, ':');
    WhiteTwice(s, p, first, x);
    hide White, StringText;
  }

  lemma WiderMember(s: Bytes, p: nat, first: nat, b: nat, m: Member<Json>)
    requires White(s, p, first) && MemberText(s, first, b, m)
    ensures MemberText(s, p, b, m)
  {
    var c: nat, d: nat :| Name(s, first, c, m.key) && White(s, c + 1, d) && Writing(s, d, b, m.value);
    WiderName(s, p, first, c, m.key);
    hide White, Name, Writing;
  }

  lemma WiderMembers(s: Bytes, p: nat, first: nat, q: nat, ms: Members)
    requires ms != [] && White(s, p, first) && MemberList(s, first, q, ms)
    ensures MemberList(s, p, q, ms)
  {
    hide MemberText, MoreMembers, White;
    var b: nat :| MemberText(s, first, b, ms[0]) && MoreMembers(s, b, q, ms);
    WiderMember(s, p, first, b, ms[0]);
  }

  lemma MembersAre(s: Bytes, p: nat, b: nat, c: nat, q: nat, ms: Members)
    requires ms != [] && MemberText(s, p, b, ms[0]) && White(s, b, c)
    requires if |ms| == 1 then c == q else Mark(s, c, ',') && MemberList(s, c + 1, q, ms[1..])
    ensures MemberList(s, p, q, ms)
  {
    hide MemberText, White;
    if |ms| > 1 { assert Comma(s, b, c); }
    assert MoreMembers(s, b, q, ms);
  }

  lemma {:induction false} MembersAreWriting(s: Bytes, off: nat, depth: nat, ms: Members, next: nat)
    requires off <= |s| && ms != [] && ReadMembers(s, off, depth) == Some(Read(ms, next)) && depth <= NESTING_LIMIT
    ensures 0 < next && Mark(s, next - 1, '}') && MemberList(s, off, next - 1, ms)
    ensures depth + NestingMembers(ms) <= NESTING_LIMIT
    decreases ms, 2
  {
    hide ReadMembers, ReadMember, ReadValue, Skip, White, Nesting, NestingItems, NestingMembers, Writing, MemberText,
      MemberList, StringText;
    var b, c := MembersFrom(s, off, depth, ms, next);
    Nestings([], ms);
    SkipWhite(s, b);
    var x, y := MemberFrom(s, off, depth, ms[0], b);
    ReadIsWriting(s, Skip(s, y + 1), depth, ms[0].value, b);
    MemberIsText(s, off, ms[0], x, y, b);
    if |ms| > 1 {
      MembersAreWriting(s, c + 1, depth, ms[1..], next);
    } else {
      assert ms[1..] == [];
    }
    MembersAre(s, off, b, c, next - 1, ms);
  }

  // ---------------------------------------------------------------- whatever is in the grammar is read

  /** The first byte of a text tells its kind, and is neither white space nor a closing bracket. */
  lemma Starts(s: Bytes, p: nat, q: nat, j: Json)
    requires Writing(s, p, q, j)
    ensures p < q <= |s| && s[p] > 32 && s[p] != CLOSE_ARRAY && s[p] != CLOSE_OBJECT
    ensures match j
      case Null => s[p] == 'n' as int
      case False => s[p] == 'f' as int
      case True => s[p] == 't' as int
      case Number(_) => s[p] == MINUS || DigitByte(s[p])
      case String(_) => s[p] == QUOTE
      case Array(_) => s[p] == OPEN_ARRAY
      case Object(_) => s[p] == OPEN_OBJECT
  {
    hide Items, MemberList;
    if j.Null? { assert s[p + 0] == "null"[0] as int; }
    if j.False? { assert s[p + 0] == "false"[0] as int; }
    if j.True? { assert s[p + 0] == "true"[0] as int; }
  }

  lemma WordReads(s: Bytes, p: nat, q: nat, j: Json, depth: nat)
    requires Writing(s, p, q, j) && (j.Null? || j.False? || j.True?)
    ensures ReadValue(s, p, depth) == Some(Read(j, q))
  {
    Starts(s, p, q, j);
    WordStarts(s, p);
    if StartsWith(s, p, NULL_TEXT) { PP.StartsFirst(s, p, NULL_TEXT); }
    if StartsWith(s, p, FALSE_TEXT) { PP.StartsFirst(s, p, FALSE_TEXT); }
    hide StartsWith, Word;
  }

  lemma {:induction false} WritingReads(s: Bytes, p: nat, q: nat, j: Json, depth: nat)
    requires Writing(s, p, q, j) && depth + Nesting(j) <= NESTING_LIMIT
    ensures ReadValue(s, p, depth) == Some(Read(j, q))
    decreases j, 0
  {
    hide ReadValue, ReadArray, ReadObject, ReadNumber, ReadString, Items, MemberList, Nesting, NumberText;
    Starts(s, p, q, j);
    match j {
      case Number(n) =>
        NumberExact(s, p, n, q);
        PP.ReadBy(s, p, depth);
      case String(t) => PP.ReadBy(s, p, depth);
      case Array(items) =>
        PP.ReadBy(s, p, depth);
        ArrayReads(s, p, q, items, depth);
      case Object(ms) =>
        PP.ReadBy(s, p, depth);
        ObjectReads(s, p, q, ms, depth);
      case _ => WordReads(s, p, q, j, depth);
    }
  }

  /** One round of the item loop. */
  lemma ItemsStep(s: Bytes, p: nat, a: nat, b: nat, c: nat, items: seq<Json>, depth: nat, q: nat)
    requires p <= |s| && items != [] && Skip(s, p) == a && ReadValue(s, a, depth) == Some(Read(items[0], b))
    requires b <= |s| && Skip(s, b) == c
    requires if |items| == 1 then c == q && HasByte(s, q, CLOSE_ARRAY)
             else HasByte(s, c, COMMA) && ReadItems(s, c + 1, depth) == Some(Read(items[1..], q + 1))
    ensures ReadItems(s, p, depth) == Some(Read(items, q + 1))
  {
    hide ReadValue, Skip;
    assert items == [items[0]] + items[1..];
    if |items| == 1 { assert items == [items[0]]; }
  }

  lemma WhiteFits(s: Bytes, p: nat, q: nat)
    requires White(s, p, q)
    ensures p <= q <= |s|
  {
  }

  lemma {:induction false} ItemsRead(s: Bytes, p: nat, q: nat, items: seq<Json>, depth: nat)
    requires items != [] && Items(s, p, q, items) && Mark(s, q, ']') && depth + NestingItems(items) <= NESTING_LIMIT
    ensures p <= |s| && ReadItems(s, p, depth) == Some(Read(items, q + 1))
    decreases items, 2
  {
    hide ReadItems, ReadValue, Skip, Nesting, NestingItems, NestingMembers, Writing, Items, White;
    var a, b, c := ItemsParts(s, p, q, items);
    Nestings(items, []);
    Starts(s, a, b, items[0]);
    WhiteSkips(s, p, a);
    WhiteSkips(s, b, c);
    WhiteFits(s, p, a);
    WhiteFits(s, b, c);
    WritingReads(s, a, b, items[0], depth);
    if |items| > 1 { ItemsRead(s, c + 1, q, items[1..], depth); }
    ItemsStep(s, p, a, b, c, items, depth, q);
  }

  lemma ItemsParts(s: Bytes, p: nat, q: nat, items: seq<Json>) returns (a: nat, b: nat, c: nat)
    requires items != [] && Items(s, p, q, items)
    ensures White(s, p, a) && Writing(s, a, b, items[0]) && White(s, b, c)
    ensures if |items| == 1 then c == q else Mark(s, c, ',') && Items(s, c + 1, q, items[1..])
  {
    a, b :| FirstItem(s, p, a, b, items[0]) && MoreItems(s, b, q, items);
    hide Writing, White;
    if |items| == 1 { c := q; } else { c :| Comma(s, b, c) && Items(s, c + 1, q, items[1..]); }
  }

  lemma ArrayFromItems(s: Bytes, p: nat, first: nat, q: nat, items: seq<Json>, depth: nat)
    requires p + 1 < q <= |s| && depth < NESTING_LIMIT && Skip(s, p + 1) == first < |s|
    requires if items == [] then first == q - 1 && HasByte(s, first, CLOSE_ARRAY)
             else s[first] != CLOSE_ARRAY && ReadItems(s, first, depth + 1) == Some(Read(items, q))
    ensures ReadArray(s, p, depth) == Some(Read(Array(items), q))
  {
    hide ReadItems;
  }

  lemma Within(s: Bytes, p: nat, q: nat, items: seq<Json>, ms: Members)
    ensures Writing(s, p, q, Array(items)) ==>
      p + 1 < q <= |s| && Mark(s, q - 1, ']') && Items(s, p + 1, q - 1, items)
    ensures Writing(s, p, q, Object(ms)) ==>
      p + 1 < q <= |s| && Mark(s, q - 1, '}') && MemberList(s, p + 1, q - 1, ms)
    ensures p + 1 < q ==> Items(s, p + 1, q - 1, []) == White(s, p + 1, q - 1) == MemberList(s, p + 1, q - 1, [])
  {
    hide FirstItem, MoreItems, MemberText, MoreMembers;
  }

  lemma {:induction false} ArrayReads(s: Bytes, p: nat, q: nat, items: seq<Json>, depth: nat)
    requires Writing(s, p, q, Array(items)) && depth + Nesting(Array(items)) <= NESTING_LIMIT
    ensures p < |s| && ReadArray(s, p, depth) == Some(Read(Array(items), q))
    decreases items, 3
  {
    hide ReadArray, ReadItems, ReadValue, Skip, Nesting, NestingItems, NestingMembers, Items, MemberList, Writing, White;
    Starts(s, p, q, Array(items));
    Within(s, p, q, items, []);
    Nestings(items, []);
    if items == [] {
      WhiteSkips(s, p + 1, q - 1);
      ArrayFromItems(s, p, q - 1, q, items, depth);
    } else {
      var a, b, c := ItemsParts(s, p + 1, q - 1, items);
      Starts(s, a, b, items[0]);
      WhiteSkips(s, p + 1, a);
      NarrowerItems(s, p + 1, a, b, c, q - 1, items);
      ItemsRead(s, a, q - 1, items, depth + 1);
      ArrayFromItems(s, p, a, q, items, depth);
    }
  }

  lemma NarrowerItems(s: Bytes, p: nat, a: nat, b: nat, c: nat, q: nat, items: seq<Json>)
    requires items != [] && White(s, p, a) && Writing(s, a, b, items[0]) && White(s, b, c)
    requires if |items| == 1 then c == q else Mark(s, c, ',') && Items(s, c + 1, q, items[1..])
    ensures Items(s, a, q, items)
  {
    hide Writing, Items;
    assert White(s, a, a);
    ItemsAre(s, a, a, b, c, q, items);
  }

  /** One round of the member loop. */
  lemma MembersStep(s: Bytes, p: nat, b: nat, c: nat, ms: Members, depth: nat, q: nat)
    requires p <= |s| && ms != [] && ReadMember(s, p, depth) == Some(Read(ms[0], b))
    requires b <= |s| && Skip(s, b) == c
    requires if |ms| == 1 then c == q && HasByte(s, q, CLOSE_OBJECT)
             else HasByte(s, c, COMMA) && ReadMembers(s, c + 1, depth) == Some(Read(ms[1..], q + 1))
    ensures ReadMembers(s, p, depth) == Some(Read(ms, q + 1))
  {
    hide ReadMember, Skip;
    assert ms == [ms[0]] + ms[1..];
    if |ms| == 1 { assert ms == [ms[0]]; }
  }

  lemma MembersParts(s: Bytes, p: nat, q: nat, ms: Members) returns (b: nat, c: nat)
    requires ms != [] && MemberList(s, p, q, ms)
    ensures MemberText(s, p, b, ms[0]) && White(s, b, c)
    ensures if |ms| == 1 then c == q else Mark(s, c, ',') && MemberList(s, c + 1, q, ms[1..])
  {
    hide MemberText, White;
    b :| MemberText(s, p, b, ms[0]) && MoreMembers(s, b, q, ms);
    if |ms| == 1 { c := q; } else { c :| Comma(s, b, c) && MemberList(s, c + 1, q, ms[1..]); }
  }

  /** Where the parts of a member stand. */
  lemma MemberParts(s: Bytes, p: nat, q: nat, m: Member<Json>) returns (a: nat, b: nat, c: nat, d: nat)
    requires MemberText(s, p, q, m)
    ensures White(s, p, a) && StringText(s, a, b, m.key) && White(s, b, c) && Mark(s, c, ':')
    ensures White(s, c + 1, d) && Writing(s, d, q, m.value)
  {
    c, d :| Name(s, p, c, m.key) && White(s, c + 1, d) && Writing(s, d, q, m.value);
    hide Writing, White, StringText;
    a, b :| White(s, p, a) && StringText(s, a, b, m.key) && White(s, b, c) && Mark(s, c, ':');
  }

  lemma NameStarts(s: Bytes, a: nat, b: nat, key: Str)
    requires StringText(s, a, b, key)
    ensures a < b <= |s| && s[a] == QUOTE
  {
    hide StringEnd, Unescaped;
  }

  lemma MemberStep(s: Bytes, p: nat, a: nat, b: nat, c: nat, d: nat, q: nat, m: Member<Json>, depth: nat)
    requires p <= |s| && Skip(s, p) == a && StringText(s, a, b, m.key) && b <= |s| && Skip(s, b) == c
    requires HasByte(s, c, COLON) && Skip(s, c + 1) == d && ReadValue(s, d, depth) == Some(Read(m.value, q))
    ensures ReadMember(s, p, depth) == Some(Read(m, q))
  {
    hide ReadValue, ReadString, Skip;
  }

  lemma {:induction false} MemberReads(s: Bytes, p: nat, q: nat, m: Member<Json>, depth: nat)
    requires MemberText(s, p, q, m) && depth + Nesting(m.value) <= NESTING_LIMIT
    ensures p <= |s| && q <= |s| && ReadMember(s, p, depth) == Some(Read(m, q))
    decreases m, 1
  {
    var a, b, c, d := MemberParts(s, p, q, m);
    hide ReadMember, ReadValue, Skip, Nesting, Writing, MemberText, StringText;
    NameStarts(s, a, b, m.key);
    Starts(s, d, q, m.value);
    WhiteSkips(s, p, a);
    WhiteSkips(s, b, c);
    WhiteSkips(s, c + 1, d);
    hide White;
    WritingReads(s, d, q, m.value, depth);
    MemberStep(s, p, a, b, c, d, q, m, depth);
  }

  lemma {:induction false} MembersRead(s: Bytes, p: nat, q: nat, ms: Members, depth: nat)
    requires ms != [] && MemberList(s, p, q, ms) && Mark(s, q, '}') && depth + NestingMembers(ms) <= NESTING_LIMIT
    ensures p <= |s| && ReadMembers(s, p, depth) == Some(Read(ms, q + 1))
    decreases ms, 2
  {
    hide ReadMembers, ReadMember, Skip, Nesting, NestingItems, NestingMembers, MemberText, MemberList, White;
    var b, c := MembersParts(s, p, q, ms);
    Nestings([], ms);
    MemberReads(s, p, b, ms[0], depth);
    WhiteSkips(s, b, c);
    WhiteFits(s, b, c);
    if |ms| > 1 { MembersRead(s, c + 1, q, ms[1..], depth); }
    MembersStep(s, p, b, c, ms, depth, q);
  }

  lemma ObjectFromMembers(s: Bytes, p: nat, first: nat, q: nat, ms: Members, depth: nat)
    requires p + 1 < q <= |s| && depth < NESTING_LIMIT && Skip(s, p + 1) == first < |s|
    requires if ms == [] then first == q - 1 && HasByte(s, first, CLOSE_OBJECT)
             else s[first] == QUOTE && ReadMembers(s, first, depth + 1) == Some(Read(ms, q))
    ensures ReadObject(s, p, depth) == Some(Read(Object(ms), q))
  {
    hide ReadMembers;
  }

  lemma {:induction false} ObjectReads(s: Bytes, p: nat, q: nat, ms: Members, depth: nat)
    requires Writing(s, p, q, Object(ms)) && depth + Nesting(Object(ms)) <= NESTING_LIMIT
    ensures p < |s| && ReadObject(s, p, depth) == Some(Read(Object(ms), q))
    decreases ms, 3
  {
    hide ReadObject, ReadMembers, ReadMember, Skip, Nesting, NestingItems, NestingMembers, Items, MemberList, Writing,
      White;
    Starts(s, p, q, Object(ms));
    Within(s, p, q, [], ms);
    Nestings([], ms);
    if ms == [] {
      WhiteSkips(s, p + 1, q - 1);
      ObjectFromMembers(s, p, q - 1, q, ms, depth);
    } else {
      var first := NarrowerMembers(s, p + 1, q - 1, ms);
      WhiteSkips(s, p + 1, first);
      MembersRead(s, first, q - 1, ms, depth + 1);
      ObjectFromMembers(s, p, first, q, ms, depth);
    }
  }

  /** The list starts at its first quote. */
  lemma NarrowerMembers(s: Bytes, p: nat, q: nat, ms: Members) returns (a: nat)
    requires ms != [] && MemberList(s, p, q, ms)
    ensures White(s, p, a) && a < |s| && s[a] == QUOTE && MemberList(s, a, q, ms)
  {
    var b, c := MembersParts(s, p, q, ms);
    var x, y, d := 0, 0, 0;
    a, x, y, d := MemberParts(s, p, b, ms[0]);
    NameStarts(s, a, x, ms[0].key);
    hide Writing, StringText, MemberList;
    NarrowerMember(s, a, x, y, d, b, ms[0]);
    MembersAre(s, a, b, c, q, ms);
  }

  lemma NarrowerMember(s: Bytes, a: nat, b: nat, c: nat, d: nat, q: nat, m: Member<Json>)
    requires a <= |s| && StringText(s, a, b, m.key) && White(s, b, c) && Mark(s, c, ':')
    requires White(s, c + 1, d) && Writing(s, d, q, m.value)
    ensures MemberText(s, a, q, m)
  {
    hide Writing, StringText;
    assert White(s, a, a);
    assert Name(s, a, c, m.key);
  }

  // ---------------------------------------------------------------- the parser is the grammar

  /** A value is read exactly if its text stands there and nests no deeper than the limit. */
  lemma ParserIsGrammar(s: Bytes, off: nat, depth: nat, j: Json, next: nat)
    requires depth <= NESTING_LIMIT
    ensures ReadValue(s, off, depth) == Some(Read(j, next)) <==> Writing(s, off, next, j) && depth + Nesting(j) <= NESTING_LIMIT
  {
    if ReadValue(s, off, depth) == Some(Read(j, next)) { ReadIsWriting(s, off, depth, j, next); }
    if Writing(s, off, next, j) && depth + Nesting(j) <= NESTING_LIMIT { WritingReads(s, off, next, j, depth); }
    hide ReadValue, Writing, Nesting;
  }

  /** A byte order mark, white space and a text. */
  ghost predicate DocumentText(s: Bytes, next: nat, j: Json) {
    exists a: nat :: White(s, Start(s), a) && Writing(s, a, next, j)
  }

  function Start(s: Bytes): (p: nat)
    ensures p <= |s|
  {
    if |s| >= 5 && s[0] == 0xEF && s[1] == 0xBB && s[2] == 0xBF then 3 else 0
  }

  /** A document is accepted exactly if it is such a text, of permitted nesting. */
  lemma DocumentExact(s: Bytes, j: Json, next: nat)
    ensures ReadDocument(s, false) == Some(Read(j, next)) <==> DocumentText(s, next, j) && Nesting(j) <= 1000
  {
    hide ReadValue, Writing, Nesting, Skip, White;
    assert AfterBom(s) == Start(s) by { if |s| >= 3 { assert s[..3] == [s[0], s[1], s[2]]; } }
    var first := Skip(s, Start(s));
    SkipWhite(s, Start(s));
    ParserIsGrammar(s, first, 0, j, next);
    if DocumentText(s, next, j) {
      var a: nat :| White(s, Start(s), a) && Writing(s, a, next, j);
      Starts(s, a, next, j);
      WhiteSkips(s, Start(s), a);
    }
  }

  /** With the terminator required, only white space and, as the last byte, a zero may follow. */
  lemma TerminatedExact(s: Bytes, j: Json, end: nat)
    ensures ReadDocument(s, true) == Some(Read(j, end)) <==>
      Nesting(j) <= 1000 && end + 1 == |s| && s[end] == 0
      && exists next: nat :: next < |s| && DocumentText(s, next, j) && White(s, next, |s|)
  {
    hide ReadValue, Writing, Nesting, DocumentText;
    if ReadDocument(s, true) == Some(Read(j, end)) {
      var next := ReadDocument(s, false).value.next;
      DocumentExact(s, j, next);
    }
    forall next: nat | next < |s| && DocumentText(s, next, j) && White(s, next, |s|) && Nesting(j) <= NESTING_LIMIT
      ensures s[|s| - 1] == 0 ==> ReadDocument(s, true) == Some(Read(j, |s| - 1))
    {
      DocumentExact(s, j, next);
      OnlyWhite(s, next);
    }
  }

  lemma {:induction false} OnlyWhite(s: Bytes, p: nat)
    requires p < |s| && White(s, p, |s|)
    ensures Skip(s, p) == |s| - 1
    decreases |s| - p
  {
    if p + 1 < |s| { OnlyWhite(s, p + 1); }
  }
}
