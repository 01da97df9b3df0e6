/** Finding the node a JSON Pointer names, and the pointer that names a node. */
module Locate {
  import opened Text
  import opened Json
  import opened Trees
  import opened PointerText
  import opened Pointer

  function Arity(j: Json): nat {
    match j
    case Array(items) => |items|
    case Object(ms) => |ms|
    case _ => 0
  }

  function Child(j: Json, i: nat): (c: Json)
    requires i < Arity(j)
    ensures c < j
  {
    match j
    case Array(items) => items[i]
    case Object(ms) => ms[i].value
  }

  predicate ValidPosition(j: Json, position: Position)
    decreases |position|
  {
    position == [] || (position[0] < Arity(j) && ValidPosition(Child(j, position[0]), position[1..]))
  }

  function At(j: Json, position: Position): Json
    requires ValidPosition(j, position)
    decreases |position|
  {
    if position == [] then j else At(Child(j, position[0]), position[1..])
  }

  /** The first member whose key the token names, or the length of the list. */
  function FindToken(cs: bool, ms: Members, token: Str): (i: nat)
    ensures i <= |ms|
    ensures i < |ms| ==> Matches(cs, ms[i].key, token)
    ensures forall k :: 0 <= k < i ==> !Matches(cs, ms[k].key, token)
  {
    if ms == [] || Matches(cs, ms[0].key, token) then 0
    else
      assert forall k :: 0 < k < |ms| ==> ms[k] == ms[1..][k - 1];
      1 + FindToken(cs, ms[1..], token)
  }

  function ChildByToken(cs: bool, j: Json, token: Str): (r: Option<nat>)
    ensures r.Some? ==> r.value < Arity(j)
  {
    match j
    case Array(items) =>
      var i := TokenIndex(token);
      if i.Some? && i.value < |items| then i else None
    case Object(ms) =>
      var i := FindToken(cs, ms, token);
      if i < |ms| then Some(i) else None
    case _ => None
  }

  function LocateTokens(cs: bool, j: Json, tokens: seq<Str>): (r: Option<Position>)
    ensures r.Some? ==> |r.value| == |tokens| && ValidPosition(j, r.value)
    decreases |tokens|
  {
    if tokens == [] then Some([])
    else
      match ChildByToken(cs, j, tokens[0])
      case None => None
      case Some(i) =>
        match LocateTokens(cs, Child(j, i), tokens[1..])
        case None => None
        case Some(rest) => Some([i] + rest)
  }

  function LocatePointer(cs: bool, j: Json, pointer: Str): Option<Position> {
    LocateTokens(cs, j, Tokens(pointer))
  }

  function Under(prefix: Position, r: Option<Position>): Option<Position> {
    match r
    case None => None
    case Some(p) => Some(prefix + p)
  }

  /** The walk of `get_item_from_pointer`: the position found, and the node there. */
  method GetItemFromPointer(root: Json, pointer: Str, cs: bool) returns (found: Option<Position>, node: Option<Json>)
    ensures found == LocatePointer(cs, root, pointer)
    ensures found.Some? <==> node.Some?
    ensures found.Some? ==> At(root, found.value) == node.value
  {
    var current, position := root, [];
    var p := 0;
    UnderNothing(LocatePointer(cs, root, pointer));
    while IsSlash(pointer, p)
      invariant p <= |pointer|
      invariant ValidPosition(root, position) && At(root, position) == current
      invariant LocatePointer(cs, root, pointer) == Under(position, LocateTokens(cs, current, TokensFrom(pointer, p)))
      decreases |pointer| - p
    {
      var end := TokenEnd(pointer, p + 1);
      ghost var rest := TokensFrom(pointer, end);
      assert TokensFrom(pointer, p)[1..] == rest;
      var child := FindChild(current, pointer, p + 1, cs);
      if child == None {
        return None, None;
      }
      ExtendPosition(root, position, child.value);
      UnderSnoc(position, child.value, LocateTokens(cs, Child(current, child.value), rest));
      current, position := Child(current, child.value), position + [child.value];
      p := end;
    }
    assert position + [] == position;
    return Some(position), Some(current);
  }

  /** One token of the walk. */
  method FindChild(current: Json, pointer: Str, start: nat, cs: bool) returns (child: Option<nat>)
    requires start <= |pointer|
    ensures child == ChildByToken(cs, current, pointer[start..TokenEnd(pointer, start)])
  {
    child := None;
    match current {
      case Array(items) =>
        var index := DecodeArrayIndex(pointer, start);
        if index.Some? && index.value < |items| { child := index; }
      case Object(ms) =>
        var k := SearchMember(ms, pointer, start, cs);
        if k < |ms| { child := Some(k); }
      case _ =>
    }
  }

  /** The member loop inside `get_item_from_pointer`. */
  method SearchMember(ms: Members, pointer: Str, start: nat, cs: bool) returns (i: nat)
    requires start <= |pointer|
    ensures i == FindToken(cs, ms, pointer[start..TokenEnd(pointer, start)])
  {
    i := 0;
    while i < |ms|
      invariant i <= |ms|
      invariant forall k :: 0 <= k < i ==> !Matches(cs, ms[k].key, pointer[start..TokenEnd(pointer, start)])
    {
      var same := ComparePointers(ms[i].key, pointer, start, cs);
      if same {
        return;
      }
      i := i + 1;
    }
  }

  lemma {:induction false} ExtendPosition(j: Json, position: Position, i: nat)
    requires ValidPosition(j, position) && i < Arity(At(j, position))
    ensures ValidPosition(j, position + [i])
    ensures At(j, position + [i]) == Child(At(j, position), i)
    decreases |position|
  {
    if position == [] {
      assert ([] + [i])[1..] == [];
    } else {
      assert (position + [i])[1..] == position[1..] + [i];
      ExtendPosition(Child(j, position[0]), position[1..], i);
    }
  }

  lemma UnderNothing(r: Option<Position>)
    ensures Under([], r) == r
  {
    if r.Some? { assert [] + r.value == r.value; }
  }

  lemma UnderSnoc(prefix: Position, i: nat, r: Option<Position>)
    ensures Under(prefix, Under([i], r)) == Under(prefix + [i], r)
  {
    if r.Some? { assert prefix + ([i] + r.value) == prefix + [i] + r.value; }
  }

  // ---------- the pointer of a node

  function TokenOf(j: Json, i: nat): Str
    requires i < Arity(j)
  {
    match j
    case Array(_) => Decimal(i)
    case Object(ms) => Encode(ms[i].key)
  }

  function TokensTo(j: Json, position: Position): seq<Str>
    requires ValidPosition(j, position)
    decreases |position|
  {
    if position == [] then []
    else [TokenOf(j, position[0])] + TokensTo(Child(j, position[0]), position[1..])
  }

  /** Every array is short enough for its indices to fit `size_t`. */
  predicate IndexableTree(j: Json)
    decreases j
  {
    match j
    case Array(items) => |items| <= SIZE_MAX && forall x | x in items :: IndexableTree(x)
    case Object(ms) => forall m | m in ms :: IndexableTree(m.value)
    case _ => true
  }

  lemma TokenNamesChild(cs: bool, j: Json, i: nat)
    requires UniqueTree(cs, j) && IndexableTree(j) && i < Arity(j)
    ensures ChildByToken(cs, j, TokenOf(j, i)) == Some(i)
    ensures SLASH !in TokenOf(j, i)
  {
    match j {
      case Array(items) => DecimalIndex(i);
      case Object(ms) =>
        EncodeHasNoSlash(ms[i].key);
        forall k | 0 <= k < |ms|
          ensures Matches(cs, ms[k].key, Encode(ms[i].key)) <==> k == i
        {
          MatchesEncoded(cs, ms[k].key, ms[i].key);
        }
    }
  }

  lemma {:induction false} TokensNamePosition(cs: bool, j: Json, position: Position)
    requires UniqueTree(cs, j) && IndexableTree(j) && ValidPosition(j, position)
    ensures LocateTokens(cs, j, TokensTo(j, position)) == Some(position)
    ensures NoSlash(TokensTo(j, position))
    decreases |position|
  {
    if position != [] {
      TokenNamesChild(cs, j, position[0]);
      TokensNamePosition(cs, Child(j, position[0]), position[1..]);
      assert TokensTo(j, position)[1..] == TokensTo(Child(j, position[0]), position[1..]);
      assert position == [position[0]] + position[1..];
    }
  }

  function PointerTo(j: Json, position: Position): Str
    requires ValidPosition(j, position)
  {
    Join(TokensTo(j, position))
  }

  function TokenSpelled(j: Json, i: nat): Str
    requires i < Arity(j)
  {
    match j case Array(_) => Decimal(i) case Object(ms) => Escaped(ms[i].key)
  }

  /**
   * The pointer of a node, in characters: for every step a "/" and then the index, or the key with "~" written "~0" and
   * "/" written "~1".
   */
  lemma PointerSpelled(j: Json, position: Position)
    requires ValidPosition(j, position)
    ensures position == [] ==> PointerTo(j, position) == []
    ensures position != [] ==>
      PointerTo(j, position) == Ascii("/") + TokenSpelled(j, position[0]) + PointerTo(Child(j, position[0]), position[1..])
  {
    if position != [] {
      JoinCons(TokenOf(j, position[0]), TokensTo(Child(j, position[0]), position[1..]));
      if j.Object? {
        var key := j.members[position[0]].key;
        EncodeSubstitutes(key, 0);
        assert key[0..] == key;
      }
      assert Ascii("/") == [SLASH];
      hide Join, Escaped, Encode;
    }
  }

  /** Looking up the pointer of a node finds that node, whatever its keys contain. */
  lemma PointerRoundTrip(cs: bool, j: Json, position: Position)
    requires UniqueTree(cs, j) && IndexableTree(j) && ValidPosition(j, position)
    ensures LocatePointer(cs, j, PointerTo(j, position)) == Some(position)
  {
    TokensNamePosition(cs, j, position);
    TokensOfJoin(TokensTo(j, position));
  }

  /** The depth-first search of `cJSONUtils_FindPointerFromObjectTo` for the node at `target`. */
  method FindPointerFromObjectTo(root: Json, here: Position, target: Position) returns (r: Option<Str>)
    ensures here <= target && ValidPosition(root, target[|here|..]) ==>
      r == Some(PointerTo(root, target[|here|..]))
    ensures !(here <= target && ValidPosition(root, target[|here|..])) ==> r == None
    decreases root
  {
    if here == target {
      assert target[|here|..] == [];
      return Some([]);
    }
    var i := 0;
    while i < Arity(root)
      invariant i <= Arity(root)
      invariant here < target && target[|here|] < i ==> !ValidPosition(root, target[|here|..])
    {
      var rest := FindPointerFromObjectTo(Child(root, i), here + [i], target);
      assert here + [i] <= target <==> here < target && target[|here|] == i;
      assert here + [i] <= target ==> target[|here|..][1..] == target[|here + [i]|..];
      if rest.Some? {
        var token;
        match root {
          case Array(_) => token := Decimal(i);
          case Object(ms) => token := EncodeStringAsPointer(ms[i].key);
        }
        JoinCons(token, TokensTo(Child(root, i), target[|here| + 1..]));
        return Some([SLASH] + token + rest.value);
      }
      i := i + 1;
    }
    return None;
  }

  lemma {:induction false} JoinShift(t: Str, tokens: seq<Str>, i: nat)
    requires i <= |tokens|
    ensures JoinFrom([t] + tokens, i + 1) == JoinFrom(tokens, i)
    decreases |tokens| - i
  {
    if i < |tokens| {
      JoinShift(t, tokens, i + 1);
      assert ([t] + tokens)[i + 1] == tokens[i];
    } else {
      assert |[t] + tokens| == i + 1;
    }
  }

  lemma JoinCons(t: Str, tokens: seq<Str>)
    ensures Join([t] + tokens) == [SLASH] + t + Join(tokens)
  {
    JoinShift(t, tokens, 0);
  }
}
