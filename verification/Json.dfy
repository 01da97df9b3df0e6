/** JSON trees, and what a tree means: nested finite maps and sequences. */
module Json {
  import opened Text

  type int32 = n: int | -0x8000_0000 <= n < 0x8000_0000

  datatype Member<T> = Member(key: Str, value: T)

  datatype Json =
    | Null
    | False
    | True
    | Number(n: int32)
    | String(s: Str)
    | Array(items: seq<Json>)
    | Object(members: seq<Member<Json>>)

  type Members = seq<Member<Json>>

  /** A JSON document with member order and key spelling forgotten. */
  datatype Val =
    | VNull
    | VFalse
    | VTrue
    | VNumber(n: int)
    | VString(s: Str)
    | VArray(items: seq<Val>)
    | VObject(fields: map<Str, Val>)

  function Meaning(caseSensitive: bool, j: Json): Val
    decreases j
  {
    match j
    case Null => VNull
    case False => VFalse
    case True => VTrue
    case Number(n) => VNumber(n)
    case String(s) => VString(s)
    case Array(items) => VArray(MeaningItems(caseSensitive, items))
    case Object(ms) => VObject(Fields(caseSensitive, ms))
  }

  function MeaningItems(caseSensitive: bool, items: seq<Json>): (vs: seq<Val>)
    ensures |vs| == |items|
    decreases items
  {
    if items == [] then [] else [Meaning(caseSensitive, items[0])] + MeaningItems(caseSensitive, items[1..])
  }

  /** A lookup finds the first member with the wanted key, so earlier members win. */
  function Fields(caseSensitive: bool, ms: Members): map<Str, Val>
    decreases ms
  {
    if ms == [] then map[]
    else Fields(caseSensitive, ms[1..])[Fold(caseSensitive, ms[0].key) := Meaning(caseSensitive, ms[0].value)]
  }
}
