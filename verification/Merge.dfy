/** JSON Merge Patch: RFC 7396 on meanings, and the in-place code that computes and generates it. */
module Merge {
  import opened Text
  import opened Json
  import opened Sorting
  import opened Trees

  // ---------- what the standard says

  function FieldsOrNone(v: Val): map<Str, Val> {
    if v.VObject? then v.fields else map[]
  }

  function FieldOrNull(fields: map<Str, Val>, k: Str): Val {
    if k in fields then fields[k] else VNull
  }

  /** Section 2 of RFC 7396: a null removes, an object is merged, anything else replaces. */
  function MergeVal(target: Val, patch: Val): Val
    decreases patch
  {
    match patch
    case VObject(pf) =>
      var tf := FieldsOrNone(target);
      VObject(map k | k in tf.Keys + pf.Keys && !(k in pf && pf[k] == VNull) ::
                if k in pf then MergeVal(FieldOrNull(tf, k), pf[k]) else tf[k])
    case _ => patch
  }

  function MergeFields(tf: map<Str, Val>, pf: map<Str, Val>): map<Str, Val> {
    map k | k in tf.Keys + pf.Keys && !(k in pf && pf[k] == VNull) ::
      if k in pf then MergeVal(FieldOrNull(tf, k), pf[k]) else tf[k]
  }

  lemma MergeObject(target: Val, pf: map<Str, Val>)
    ensures MergeVal(target, VObject(pf)) == VObject(MergeFields(FieldsOrNone(target), pf))
  {
    assert MergeVal(target, VObject(pf)).fields == MergeFields(FieldsOrNone(target), pf);
  }

  /**
   * Section 2 of RFC 7396, field by field: a patch that is no object is the result; otherwise a field the patch sets to
   * null is gone, a field it gives another value is that value merged into the old one, and no other field changes.
   */
  lemma MergeByFields(target: Val, patch: Val, k: Str)
    ensures !patch.VObject? ==> MergeVal(target, patch) == patch
    ensures patch.VObject? ==> MergeVal(target, patch).VObject?
    ensures patch.VObject? && k in patch.fields && patch.fields[k] == VNull ==> k !in MergeVal(target, patch).fields
    ensures patch.VObject? && k in patch.fields && patch.fields[k] != VNull ==>
      var before := if target.VObject? && k in target.fields then target.fields[k] else VNull;
      k in MergeVal(target, patch).fields && MergeVal(target, patch).fields[k] == MergeVal(before, patch.fields[k])
    ensures patch.VObject? && k !in patch.fields ==>
      if target.VObject? && k in target.fields then
        k in MergeVal(target, patch).fields && MergeVal(target, patch).fields[k] == target.fields[k]
      else k !in MergeVal(target, patch).fields
  {
  }

  /** Applying a merge patch twice is applying it once. */
  lemma {:induction false} MergeIdempotent(target: Val, patch: Val)
    ensures MergeVal(MergeVal(target, patch), patch) == MergeVal(target, patch)
    decreases patch
  {
    if patch.VObject? {
      var tf := FieldsOrNone(target);
      var once := MergeVal(target, patch);
      forall k | k in patch.fields {
        MergeIdempotent(FieldOrNull(tf, k), patch.fields[k]);
      }
      assert MergeVal(once, patch).fields == once.fields;
    }
  }

  /** What one member of a patch does to the fields of the target. */
  function MergeField(fields: map<Str, Val>, k: Str, v: Val): map<Str, Val> {
    if v == VNull then fields - {k} else fields[k := MergeVal(FieldOrNull(fields, k), v)]
  }

  /** Taking one member of the patch first. */
  lemma MergeFieldsHead(tf: map<Str, Val>, rest: map<Str, Val>, k: Str, v: Val)
    requires k !in rest
    ensures MergeFields(MergeField(tf, k, v), rest) == MergeFields(tf, rest[k := v])
  {
    hide MergeVal;
    var once := MergeField(tf, k, v);
    var f, g := MergeFields(once, rest), MergeFields(tf, rest[k := v]);
    assert forall x :: x != k ==> FieldOrNull(once, x) == FieldOrNull(tf, x);
    forall x ensures x in f <==> x in g
      ensures x in f ==> f[x] == g[x]
    {
    }
  }

  // ---------- merge_patch

  function OptionMeaning(cs: bool, j: Option<Json>): Val {
    match j case None => VNull case Some(x) => Meaning(cs, x)
  }

  ghost predicate OptionUnique(cs: bool, j: Option<Json>) {
    j.Some? ==> UniqueTree(cs, j.value)
  }

  /** `cJSON_DetachItemFromObject`: the members without the one under `key`, and its value. */
  function Detach(cs: bool, ms: Members, key: Str): Option<Json> {
    var i := IndexOfKey(cs, ms, key);
    if i < |ms| then Some(ms[i].value) else None
  }

  lemma DetachMeans(cs: bool, ms: Members, key: Str)
    requires UniqueMembers(cs, ms)
    ensures OptionMeaning(cs, Detach(cs, ms, key)) == FieldOrNull(Fields(cs, ms), Fold(cs, key))
    ensures OptionUnique(cs, Detach(cs, ms, key))
    ensures UniqueMembers(cs, WithoutKey(cs, ms, key))
    ensures Fields(cs, WithoutKey(cs, ms, key)) == Fields(cs, ms) - {Fold(cs, key)}
  {
    LookupIsField(cs, ms, key);
    WithoutKeyFields(cs, ms, key);
  }

  lemma ReplaceMeans(cs: bool, ms: Members, key: Str, v: Json)
    requires UniqueMembers(cs, ms) && UniqueTree(cs, v)
    ensures UniqueMembers(cs, WithoutKey(cs, ms, key) + [Member(key, v)])
    ensures Fields(cs, WithoutKey(cs, ms, key) + [Member(key, v)]) == Fields(cs, ms)[Fold(cs, key) := Meaning(cs, v)]
  {
    DetachMeans(cs, ms, key);
    FieldsAppend(cs, WithoutKey(cs, ms, key), Member(key, v));
    var k := Fold(cs, key);
    assert (Fields(cs, ms) - {k})[k := Meaning(cs, v)] == Fields(cs, ms)[k := Meaning(cs, v)];
  }

  /** The tree `merge_patch` leaves; no target stands for the C null pointer. */
  function Merged(cs: bool, target: Option<Json>, patch: Json): Json
    decreases patch, 1
  {
    if !patch.Object? then patch
    else
      var members := if target.Some? && target.value.Object? then target.value.members else [];
      Object(MergedMembers(cs, members, patch.members))
  }

  function MergedMembers(cs: bool, members: Members, pm: Members): Members
    decreases pm, 0
  {
    if pm == [] then members else MergedMembers(cs, MergedMember(cs, members, pm[0].key, pm[0].value), pm[1..])
  }

  /** One member of the patch: delete, or detach, merge and append. */
  function MergedMember(cs: bool, members: Members, key: Str, value: Json): Members
    decreases value, 2
  {
    if value.Null? then WithoutKey(cs, members, key)
    else WithoutKey(cs, members, key) + [Member(key, Merged(cs, Detach(cs, members, key), value))]
  }

  /** On trees with unique keys it means what RFC 7396 says, and keys stay unique. */
  lemma {:induction false} MergedMeans(cs: bool, target: Option<Json>, patch: Json)
    requires OptionUnique(cs, target) && UniqueTree(cs, patch)
    ensures UniqueTree(cs, Merged(cs, target, patch))
    ensures Meaning(cs, Merged(cs, target, patch)) == MergeVal(OptionMeaning(cs, target), Meaning(cs, patch))
    decreases patch, 1
  {
    if patch.Object? {
      var members := if target.Some? && target.value.Object? then target.value.members else [];
      MergedMembersMean(cs, members, patch.members);
      MergeObject(OptionMeaning(cs, target), Fields(cs, patch.members));
    }
  }

  lemma {:induction false} MergedMembersMean(cs: bool, members: Members, pm: Members)
    requires UniqueMembers(cs, members) && UniqueMembers(cs, pm)
    ensures UniqueMembers(cs, MergedMembers(cs, members, pm))
    ensures Fields(cs, MergedMembers(cs, members, pm)) == MergeFields(Fields(cs, members), Fields(cs, pm))
    decreases pm, 0
  {
    if pm == [] {
      assert MergeFields(Fields(cs, members), map[]) == Fields(cs, members);
    } else {
      var next := MergedMember(cs, members, pm[0].key, pm[0].value);
      MergedMemberMeans(cs, members, pm[0].key, pm[0].value);
      MergedMembersMean(cs, next, pm[1..]);
      HeadField(cs, pm);
      hide Fields, MergeFields, MergeVal, MergedMember, MergeField;
      MergeFieldsHead(Fields(cs, members), Fields(cs, pm[1..]), Fold(cs, pm[0].key), Meaning(cs, pm[0].value));
    }
  }

  lemma {:induction false} MergedMemberMeans(cs: bool, members: Members, key: Str, value: Json)
    requires UniqueMembers(cs, members) && UniqueTree(cs, value)
    ensures UniqueMembers(cs, MergedMember(cs, members, key, value))
    ensures Fields(cs, MergedMember(cs, members, key, value))
         == MergeField(Fields(cs, members), Fold(cs, key), Meaning(cs, value))
    decreases value, 2
  {
    DetachMeans(cs, members, key);
    if !value.Null? {
      MergedMeans(cs, Detach(cs, members, key), value);
      ReplaceMeans(cs, members, key, Merged(cs, Detach(cs, members, key), value));
    }
  }

  lemma HeadField(cs: bool, ms: Members)
    requires ms != [] && UniqueKeys(cs, ms)
    ensures Fields(cs, ms) == Fields(cs, ms[1..])[Fold(cs, ms[0].key) := Meaning(cs, ms[0].value)]
    ensures Fold(cs, ms[0].key) !in Fields(cs, ms[1..])
  {
    FieldsDomain(cs, ms[1..], Fold(cs, ms[0].key));
  }

  /** `merge_patch`. */
  method MergePatch(target: Option<Json>, patch: Json, cs: bool) returns (r: Json)
    ensures r == Merged(cs, target, patch)
    ensures OptionUnique(cs, target) && UniqueTree(cs, patch) ==>
      UniqueTree(cs, r) && Meaning(cs, r) == MergeVal(OptionMeaning(cs, target), Meaning(cs, patch))
    decreases patch, 1
  {
    if OptionUnique(cs, target) && UniqueTree(cs, patch) { MergedMeans(cs, target, patch); }
    if !patch.Object? {
      return patch;
    }
    var members := if target.Some? && target.value.Object? then target.value.members else [];
    members := MergeMembers(members, patch.members, cs);
    r := Object(members);
  }

  /** Its loop over the members of the patch. */
  method MergeMembers(start: Members, pm: Members, cs: bool) returns (members: Members)
    ensures members == MergedMembers(cs, start, pm)
    decreases pm, 0
  {
    members := start;
    var i := 0;
    assert pm[0..] == pm;
    while i < |pm|
      invariant i <= |pm| && MergedMembers(cs, members, pm[i..]) == MergedMembers(cs, start, pm)
    {
      assert pm[i..][1..] == pm[i + 1..];
      members := MergeMember(members, pm[i].key, pm[i].value, cs);
      i := i + 1;
    }
    assert pm[i..] == [];
  }

  /** The body of the loop. */
  method MergeMember(members: Members, key: Str, value: Json, cs: bool) returns (r: Members)
    ensures r == MergedMember(cs, members, key, value)
    ensures UniqueMembers(cs, members) && UniqueTree(cs, value) ==>
      UniqueMembers(cs, r) && Fields(cs, r) == MergeField(Fields(cs, members), Fold(cs, key), Meaning(cs, value))
    decreases value, 2
  {
    if UniqueMembers(cs, members) && UniqueTree(cs, value) { MergedMemberMeans(cs, members, key, value); }
    if value.Null? {
      r := WithoutKey(cs, members, key);
    } else {
      var replacement := MergePatch(Detach(cs, members, key), value, cs);
      r := WithoutKey(cs, members, key) + [Member(key, replacement)];
    }
  }

  // ---------- what a generated merge patch should be

  /** The members that differ: null where `after` has none, a patch of the two values where both have one. */
  function DiffFields(f: map<Str, Val>, t: map<Str, Val>): map<Str, Val>
    decreases VObject(f), 0
  {
    var whole := VObject(f);
    map k | k in f.Keys + t.Keys && !(k in f && k in t && f[k] == t[k]) ::
      if k !in t then VNull else if k in f then DiffVal(whole.fields[k], t[k]) else t[k]
  }

  function DiffVal(before: Val, after: Val): Val
    decreases before, 1
  {
    match before
    case VObject(f) => if after.VObject? then VObject(DiffFields(f, after.fields)) else after
    case _ => after
  }

  /** Everything a merge patch would have to put in place is expressible: it puts no null member. */
  predicate Expressible(before: Val, after: Val)
    decreases after
  {
    match after
    case VObject(t) =>
      var f := FieldsOrNone(before);
      forall k | k in t :: (k in f && f[k] == t[k]) || (t[k] != VNull && Expressible(FieldOrNull(f, k), t[k]))
    case _ => true
  }

  predicate NoNullMember(v: Val) {
    match v
    case VObject(fields) => forall k | k in fields :: fields[k] != VNull && NoNullMember(fields[k])
    case _ => true
  }

  lemma {:induction false} NoNullIsExpressible(before: Val, after: Val)
    requires NoNullMember(after)
    ensures Expressible(before, after)
    decreases after
  {
    if after.VObject? {
      forall k | k in after.fields { NoNullIsExpressible(FieldOrNull(FieldsOrNone(before), k), after.fields[k]); }
    }
  }

  /** Merging the difference into `before` gives `after` exactly when no null member has to be put in place. */
  lemma {:induction false} DiffMerges(before: Val, after: Val)
    ensures MergeVal(before, DiffVal(before, after)) == after <==> Expressible(before, after)
    decreases after, 1
  {
    if after.VObject? {
      if before.VObject? {
        DiffFieldsMerge(before.fields, after.fields);
        MergeObject(before, DiffFields(before.fields, after.fields));
      } else {
        WholeMerges(after.fields);
        MergeObject(before, after.fields);
      }
    }
  }

  /** Both sides of the equation at one key of two objects. */
  lemma {:induction false} DiffFieldsMerge(f: map<Str, Val>, t: map<Str, Val>)
    ensures MergeFields(f, DiffFields(f, t)) == t <==> Expressible(VObject(f), VObject(t))
    decreases VObject(t), 0
  {
    var m := MergeFields(f, DiffFields(f, t));
    assert t.Values >= {};
    forall k | k in t
      ensures k in m && m[k] == t[k] <==> (k in f && f[k] == t[k]) || (t[k] != VNull && Expressible(FieldOrNull(f, k), t[k]))
    {
      if !(k in f && f[k] == t[k]) {
        assert VObject(t).fields[k] == t[k];
        if k in f { DiffMerges(f[k], t[k]); } else { WholeMerge(t[k]); }
      }
    }
    assert m.Keys <= t.Keys;
  }

  lemma {:induction false} WholeMerge(after: Val)
    ensures MergeVal(VNull, after) == after <==> Expressible(VNull, after)
    decreases after, 1
  {
    if after.VObject? {
      WholeMerges(after.fields);
      MergeObject(VNull, after.fields);
    }
  }

  lemma {:induction false} WholeMerges(t: map<Str, Val>)
    ensures MergeFields(map[], t) == t <==> Expressible(VNull, VObject(t))
    decreases VObject(t), 0
  {
    var m := MergeFields(map[], t);
    forall k | k in t
      ensures k in m && m[k] == t[k] <==> t[k] != VNull && Expressible(VNull, t[k])
    {
      assert VObject(t).fields[k] == t[k];
      WholeMerge(t[k]);
    }
  }

  /** For two objects the difference is empty exactly when they are equal. */
  lemma DiffEmpty(f: map<Str, Val>, t: map<Str, Val>)
    ensures DiffFields(f, t) == map[] <==> f == t
  {
    if f != t {
      var k :| k in f.Keys + t.Keys && !(k in f && k in t && f[k] == t[k]);
      assert k in DiffFields(f, t);
    }
  }
}
