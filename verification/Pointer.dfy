/** JSON Pointer lookup, and building the pointer of a node. A node is named by the child positions that lead to it. */
module Pointer {
  import opened Text
  import opened Arithmetic
  import opened PointerText

  const SIZE_MAX: nat := 0xFFFF_FFFF_FFFF_FFFF

  type Position = seq<nat>

  // ---------- one reference token

  /** The comparison loop of `compare_pointers`, at characters i of the name and p of the token. */
  function MatchFrom(cs: bool, name: Str, i: nat, token: Str, p: nat): bool
    requires i <= |name| && p <= |token|
    decreases |token| - p
  {
    if i == |name| || p == |token| then (i == |name|) == (p == |token|)
    else if token[p] == TILDE then
      && p + 1 < |token|
      && ((token[p + 1] == ZERO && name[i] == TILDE) || (token[p + 1] == ONE && name[i] == SLASH))
      && MatchFrom(cs, name, i + 1, token, p + 2)
    else
      FoldChar(cs, name[i]) == FoldChar(cs, token[p]) && MatchFrom(cs, name, i + 1, token, p + 1)
  }

  function Matches(cs: bool, name: Str, token: Str): bool {
    MatchFrom(cs, name, 0, token, 0)
  }

  function IsSlash(pointer: Str, p: nat): bool {
    p < |pointer| && pointer[p] == SLASH
  }

  /** Where the reference token starting at p ends: at the next "/" or at the end. */
  function TokenEnd(pointer: Str, p: nat): (e: nat)
    requires p <= |pointer|
    ensures p <= e <= |pointer|
    ensures forall k :: p <= k < e ==> pointer[k] != SLASH
    ensures e < |pointer| ==> pointer[e] == SLASH
    decreases |pointer| - p
  {
    if p == |pointer| || pointer[p] == SLASH then p else TokenEnd(pointer, p + 1)
  }

  /** `compare_pointers`, reading the token of `pointer` that starts at `start`. */
  method ComparePointers(name: Str, pointer: Str, start: nat, cs: bool) returns (r: bool)
    requires start <= |pointer|
    ensures r == Matches(cs, name, pointer[start..TokenEnd(pointer, start)])
  {
    ghost var token := pointer[start..TokenEnd(pointer, start)];
    var i, p := 0, start;
    while i < |name| && p < |pointer| && pointer[p] != SLASH
      invariant i <= |name| && start <= p <= start + |token|
      invariant Matches(cs, name, token) == MatchFrom(cs, name, i, token, p - start)
      decreases |pointer| - p
    {
      assert p - start < |token| && token[p - start] == pointer[p];
      if pointer[p] == TILDE {
        assert p + 1 < start + |token| ==> token[p + 1 - start] == pointer[p + 1];
        if !(p + 1 < |pointer| && ((pointer[p + 1] == ZERO && name[i] == TILDE) || (pointer[p + 1] == ONE && name[i] == SLASH))) {
          return false;
        }
        p := p + 1;
      } else if FoldChar(cs, name[i]) != FoldChar(cs, pointer[p]) {
        return false;
      }
      i, p := i + 1, p + 1;
    }
    assert p < start + |token| ==> token[p - start] == pointer[p];
    r := (p < |pointer| && pointer[p] != SLASH) == (i < |name|);
  }

  /** Matching an escaped key compares the keys. */
  lemma {:induction false} MatchesEncodedFrom(cs: bool, name: Str, key: Str, i: nat, token: Str, p: nat)
    requires i <= |name| && i <= |key| && p <= |token|
    requires token[p..] == EncodeFrom(key, i)
    ensures MatchFrom(cs, name, i, token, p) <==>
      |name| == |key| && forall k :: i <= k < |key| ==> FoldChar(cs, name[k]) == FoldChar(cs, key[k])
    decreases |key| - i
  {
    if i == |key| {
    } else {
      var e := EscapeChar(key[i]);
      assert |token[p..]| >= |e| && token[p] == token[p..][0] == e[0];
      assert |e| == 2 ==> token[p + 1] == token[p..][1] == e[1];
      assert token[p + |e|..] == token[p..][|e|..] == EncodeFrom(key, i + 1);
      if i < |name| {
        MatchesEncodedFrom(cs, name, key, i + 1, token, p + |e|);
      }
    }
  }

  lemma MatchesEncoded(cs: bool, name: Str, key: Str)
    ensures Matches(cs, name, Encode(key)) <==> Fold(cs, name) == Fold(cs, key)
  {
    assert Encode(key)[0..] == EncodeFrom(key, 0);
    MatchesEncodedFrom(cs, name, key, 0, Encode(key), 0);
    if Fold(cs, name) == Fold(cs, key) {
      forall k | 0 <= k < |key| ensures FoldChar(cs, name[k]) == FoldChar(cs, key[k]) {
        FoldAt(cs, name, k);
        FoldAt(cs, key, k);
      }
    }
    if Matches(cs, name, Encode(key)) {
      forall k | 0 <= k < |key| ensures Fold(cs, name)[k] == Fold(cs, key)[k] {
        FoldAt(cs, name, k);
        FoldAt(cs, key, k);
      }
    }
  }

  // ---------- array indices

  /** The accumulation in `decode_array_index_from_pointer`, in the width of `size_t`. */
  function Digits(token: Str, n: nat): nat
    requires n <= |token| && forall k :: 0 <= k < n ==> token[k] >= ZERO
  {
    if n == 0 then 0 else (10 * Digits(token, n - 1) + (token[n - 1] - ZERO)) % (SIZE_MAX + 1)
  }

  /** The index a token stands for. Only its first character is checked against "9". */
  function TokenIndex(token: Str): Option<nat> {
    if |token| >= 2 && token[0] == ZERO then None
    else if token != [] && token[0] > NINE then None
    else if exists k :: 0 <= k < |token| && token[k] < ZERO then None
    else Some(Digits(token, |token|))
  }

  /** `decode_array_index_from_pointer`. */
  method DecodeArrayIndex(pointer: Str, start: nat) returns (r: Option<nat>)
    requires start <= |pointer|
    ensures r == TokenIndex(pointer[start..TokenEnd(pointer, start)])
  {
    ghost var end := TokenEnd(pointer, start);
    ghost var token := pointer[start..end];
    assert forall k :: start <= k < end ==> token[k - start] == pointer[k];
    if start + 1 < |pointer| && pointer[start] == ZERO && pointer[start + 1] != SLASH {
      assert token[0] == ZERO && TokenEnd(pointer, start) >= start + 2 by {
        assert TokenEnd(pointer, start) == TokenEnd(pointer, start + 1) == TokenEnd(pointer, start + 2);
      }
      return None;
    }
    var parsed, position := 0, start;
    while position < |pointer| && pointer[position] >= ZERO && pointer[start] <= NINE
      invariant start <= position <= end
      invariant position > start ==> pointer[start] <= NINE
      invariant forall k :: 0 <= k < position - start ==> token[k] >= ZERO
      invariant parsed == Digits(token, position - start)
      decreases |pointer| - position
    {
      assert position < end && token[position - start] == pointer[position];
      parsed := (10 * parsed + (pointer[position] - ZERO)) % (SIZE_MAX + 1);
      position := position + 1;
    }
    if position < |pointer| && pointer[position] != SLASH {
      assert position < end && token[position - start] == pointer[position];
      return None;
    }
    assert position == end;
    assert end > start ==> pointer[start] <= NINE;
    assert |token| >= 1 ==> token[0] == pointer[start];
    assert |token| >= 2 ==> token[1] == pointer[start + 1] && pointer[start + 1] != SLASH;
    assert parsed == Digits(token, |token|);
    return Some(parsed);
  }

  /** `array-index` of RFC 6901, section 4. */
  predicate RfcIndex(token: Str) {
    token != [] && (forall k :: 0 <= k < |token| ==> ZERO <= token[k] <= NINE) && (|token| > 1 ==> token[0] != ZERO)
  }

  /** The number the digits spell. */
  function IndexNumber(token: Str, n: nat): nat
    requires n <= |token| && forall k :: 0 <= k < n ==> token[k] >= ZERO
  {
    if n == 0 then 0 else 10 * IndexNumber(token, n - 1) + (token[n - 1] - ZERO)
  }

  /**
   * Every index of RFC 6901 is accepted, as its value in the width of `size_t`; a token accepted is such an index
   * exactly when it is not empty and has no character above "9".
   */
  lemma AcceptedIndex(token: Str)
    ensures RfcIndex(token) ==> TokenIndex(token) == Some(IndexNumber(token, |token|) % (SIZE_MAX + 1))
    ensures TokenIndex(token).Some? ==>
      (RfcIndex(token) <==> token != [] && forall k :: 0 <= k < |token| ==> token[k] <= NINE)
  {
    if TokenIndex(token).Some? { DigitsWrap(token, |token|); }
  }

  lemma {:induction false} DigitsWrap(token: Str, n: nat)
    requires n <= |token| && forall k :: 0 <= k < n ==> token[k] >= ZERO
    ensures Digits(token, n) == IndexNumber(token, n) % (SIZE_MAX + 1)
  {
    if n > 0 {
      DigitsWrap(token, n - 1);
      WrapStep(IndexNumber(token, n - 1), token[n - 1] - ZERO, SIZE_MAX + 1);
    }
  }

  lemma WrapStep(x: nat, d: nat, m: nat)
    requires m > 0
    ensures (10 * (x % m) + d) % m == (10 * x + d) % m
  {
    assert 10 * x + d == 10 * (x % m) + d + Times(m, 10 * (x / m));
    Shifted(10 * (x % m) + d, m, 10 * (x / m));
  }

  /** The empty token is read as 0, and "1a" as 59. */
  lemma LaxIndexExamples()
    ensures TokenIndex([]) == Some(0) && !RfcIndex([])
    ensures TokenIndex([ONE, 97]) == Some(59) && !RfcIndex([ONE, 97])
  {
    var token: Str := [ONE, 97];
    assert Digits(token, 1) == 1;
    assert token[1] > NINE;
  }

  lemma {:induction false} DigitsOfPrefix(s: Str, t: Str, n: nat)
    requires n <= |s| <= |t| && t[..|s|] == s && forall k :: 0 <= k < n ==> s[k] >= ZERO
    ensures forall k :: 0 <= k < n ==> t[k] == s[k]
    ensures Digits(t, n) == Digits(s, n)
  {
    assert forall k :: 0 <= k < n ==> t[k] == t[..|s|][k];
    if n > 0 { DigitsOfPrefix(s, t, n - 1); }
  }

  lemma DigitsSnoc(s: Str, d: nat)
    requires d < 10 && forall k :: 0 <= k < |s| ==> s[k] >= ZERO
    ensures Digits(s + [ZERO + d], |s| + 1) == (10 * Digits(s, |s|) + d) % (SIZE_MAX + 1)
  {
    var t: Str := s + [ZERO + d];
    assert t[..|s|] == s;
    DigitsOfPrefix(s, t, |s|);
  }

  lemma DecimalDigit(n: nat)
    requires n < 10
    ensures Digits(Decimal(n), |Decimal(n)|) == n
  {
    assert Digits(Decimal(n), 0) == 0;
  }

  lemma DecimalSnoc(n: nat)
    requires n >= 10
    ensures Decimal(n) == Decimal(n / 10) + [ZERO + n % 10]
  {
  }

  lemma {:induction false} DecimalDigits(n: nat)
    requires n <= SIZE_MAX
    ensures Digits(Decimal(n), |Decimal(n)|) == n
  {
    hide Digits, Decimal;
    if n < 10 {
      DecimalDigit(n);
    } else {
      DecimalDigits(n / 10);
      DecimalSnoc(n);
      DigitsSnoc(Decimal(n / 10), n % 10);
    }
  }

  /** Reading back a printed index. */
  lemma DecimalIndex(n: nat)
    requires n <= SIZE_MAX
    ensures TokenIndex(Decimal(n)) == Some(n)
  {
    DecimalDigits(n);
    DecimalLead(n);
  }

  // ---------- walking a pointer

  function TokensFrom(pointer: Str, p: nat): (tokens: seq<Str>)
    requires p <= |pointer|
    decreases |pointer| - p
  {
    if !IsSlash(pointer, p) then []
    else
      var e := TokenEnd(pointer, p + 1);
      [pointer[p + 1..e]] + TokensFrom(pointer, e)
  }

  /** The reference tokens of a pointer; a pointer that does not start with "/" has none. */
  function Tokens(pointer: Str): seq<Str> {
    TokensFrom(pointer, 0)
  }

  function JoinFrom(tokens: seq<Str>, i: nat): Str
    requires i <= |tokens|
    decreases |tokens| - i
  {
    if i == |tokens| then [] else [SLASH] + tokens[i] + JoinFrom(tokens, i + 1)
  }

  function Join(tokens: seq<Str>): Str {
    JoinFrom(tokens, 0)
  }

  predicate NoSlash(tokens: seq<Str>) {
    forall t | t in tokens :: SLASH !in t
  }

  lemma {:induction false} TokenEndIs(pointer: Str, p: nat, e: nat)
    requires p <= e <= |pointer|
    requires forall k :: p <= k < e ==> pointer[k] != SLASH
    requires e == |pointer| || pointer[e] == SLASH
    ensures TokenEnd(pointer, p) == e
    decreases e - p
  {
    if p < e { TokenEndIs(pointer, p + 1, e); }
  }

  /** The pointer has "/" followed by exactly the token t at p. */
  ghost predicate TokenAt(pointer: Str, p: nat, t: Str) {
    && p + 1 + |t| <= |pointer|
    && pointer[p] == SLASH
    && (forall k :: 0 <= k < |t| ==> pointer[p + 1 + k] == t[k])
    && (p + 1 + |t| < |pointer| ==> pointer[p + 1 + |t|] == SLASH)
  }

  lemma ReadToken(pointer: Str, p: nat, t: Str)
    requires TokenAt(pointer, p, t) && SLASH !in t
    ensures TokensFrom(pointer, p) == [t] + TokensFrom(pointer, p + 1 + |t|)
  {
    forall k | p + 1 <= k < p + 1 + |t|
      ensures pointer[k] != SLASH
    {
      assert pointer[p + 1 + (k - p - 1)] == t[k - p - 1];
    }
    TokenEndIs(pointer, p + 1, p + 1 + |t|);
    assert pointer[p + 1..p + 1 + |t|] == t;
  }

  lemma PeelToken(pointer: Str, p: nat, t: Str, rest: Str)
    requires p <= |pointer| && pointer[p..] == [SLASH] + t + rest
    requires rest == [] || rest[0] == SLASH
    ensures TokenAt(pointer, p, t) && pointer[p + 1 + |t|..] == rest
  {
    var s := pointer[p..];
    assert |pointer| == p + 1 + |t| + |rest|;
    assert forall k :: 0 <= k < |s| ==> pointer[p + k] == s[k];
    assert pointer[p + 1 + |t|..] == s[1 + |t|..];
    forall k | 0 <= k < |t|
      ensures pointer[p + 1 + k] == t[k]
    {
      assert s[1 + k] == t[k];
    }
  }

  lemma JoinHead(tokens: seq<Str>, i: nat)
    requires i < |tokens|
    ensures JoinFrom(tokens, i) == [SLASH] + tokens[i] + JoinFrom(tokens, i + 1)
    ensures JoinFrom(tokens, i + 1) == [] || JoinFrom(tokens, i + 1)[0] == SLASH
  {
  }

  lemma JoinStep(pointer: Str, p: nat, tokens: seq<Str>, i: nat)
    requires NoSlash(tokens) && p <= |pointer| && i < |tokens| && pointer[p..] == JoinFrom(tokens, i)
    ensures p + 1 + |tokens[i]| <= |pointer|
    ensures TokensFrom(pointer, p) == [tokens[i]] + TokensFrom(pointer, p + 1 + |tokens[i]|)
    ensures pointer[p + 1 + |tokens[i]|..] == JoinFrom(tokens, i + 1)
  {
    JoinHead(tokens, i);
    assert SLASH !in tokens[i];
    hide TokensFrom, JoinFrom, NoSlash;
    PeelToken(pointer, p, tokens[i], JoinFrom(tokens, i + 1));
    ReadToken(pointer, p, tokens[i]);
  }

  lemma JoinEnd(pointer: Str, p: nat, tokens: seq<Str>)
    requires p <= |pointer| && pointer[p..] == JoinFrom(tokens, |tokens|)
    ensures TokensFrom(pointer, p) == tokens[|tokens|..]
  {
    assert |pointer[p..]| == 0;
  }

  lemma {:induction false} TokensOfJoinFrom(pointer: Str, p: nat, tokens: seq<Str>, i: nat)
    requires NoSlash(tokens) && p <= |pointer| && i <= |tokens| && pointer[p..] == JoinFrom(tokens, i)
    ensures TokensFrom(pointer, p) == tokens[i..]
    decreases |tokens| - i
  {
    hide TokensFrom, JoinFrom, NoSlash;
    if i == |tokens| {
      JoinEnd(pointer, p, tokens);
    } else {
      JoinStep(pointer, p, tokens, i);
      TokensOfJoinFrom(pointer, p + 1 + |tokens[i]|, tokens, i + 1);
      assert tokens[i..] == [tokens[i]] + tokens[i + 1..];
    }
  }

  lemma TokensOfJoin(tokens: seq<Str>)
    requires NoSlash(tokens)
    ensures Tokens(Join(tokens)) == tokens
  {
    TokensOfJoinFrom(Join(tokens), 0, tokens, 0);
  }

  lemma {:induction false} JoinSnocFrom(tokens: seq<Str>, t: Str, i: nat)
    requires i <= |tokens|
    ensures JoinFrom(tokens + [t], i) == JoinFrom(tokens, i) + [SLASH] + t
    decreases |tokens| - i
  {
    if i < |tokens| {
      JoinSnocFrom(tokens, t, i + 1);
    } else {
      assert JoinFrom(tokens + [t], i + 1) == [];
    }
  }

  lemma JoinSnoc(tokens: seq<Str>, t: Str)
    ensures Join(tokens + [t]) == Join(tokens) + [SLASH] + t
  {
    JoinSnocFrom(tokens, t, 0);
  }
}
