/** Reading and writing inside the meaning of a document, by member keys and array indices. */
module Values {
  import opened Text
  import opened Json

  datatype Step = Key(k: Str) | Index(i: nat)

  type Steps = seq<Step>

  function GetStep(v: Val, s: Step): Option<Val> {
    match (v, s)
    case (VObject(fields), Key(k)) => if k in fields then Some(fields[k]) else None
    case (VArray(items), Index(i)) => if i < |items| then Some(items[i]) else None
    case (_, _) => None
  }

  function PutStep(v: Val, s: Step, w: Val): Val
    requires GetStep(v, s).Some?
  {
    match v
    case VObject(fields) => VObject(fields[s.k := w])
    case VArray(items) => VArray(items[s.i := w])
  }

  function Get(v: Val, p: Steps): Option<Val> {
    if p == [] then Some(v)
    else
      match GetStep(v, p[0])
      case None => None
      case Some(c) => Get(c, p[1..])
  }

  function Put(v: Val, p: Steps, w: Val): Val
    requires Get(v, p).Some?
  {
    if p == [] then w else PutStep(v, p[0], Put(GetStep(v, p[0]).value, p[1..], w))
  }

  lemma PutStepLaws(v: Val, s: Step, w: Val, w': Val)
    requires GetStep(v, s).Some?
    ensures GetStep(PutStep(v, s, w), s) == Some(w)
    ensures PutStep(v, s, GetStep(v, s).value) == v
    ensures PutStep(PutStep(v, s, w), s, w') == PutStep(v, s, w')
  {
    match v {
      case VObject(fields) =>
        assert fields[s.k := fields[s.k]] == fields;
        assert fields[s.k := w][s.k := w'] == fields[s.k := w'];
      case VArray(items) =>
        assert items[s.i := items[s.i]] == items;
        assert items[s.i := w][s.i := w'] == items[s.i := w'];
    }
  }

  /** What was written is what is read back. */
  lemma {:induction false} GetPut(v: Val, p: Steps, w: Val)
    requires Get(v, p).Some?
    ensures Get(Put(v, p, w), p) == Some(w)
  {
    if p != [] {
      var c := GetStep(v, p[0]).value;
      GetPut(c, p[1..], w);
      PutStepLaws(v, p[0], Put(c, p[1..], w), w);
    }
  }

  /** A second write hides the first. */
  lemma {:induction false} PutPut(v: Val, p: Steps, w: Val, w': Val)
    requires Get(v, p).Some?
    ensures Get(Put(v, p, w), p).Some?
    ensures Put(Put(v, p, w), p, w') == Put(v, p, w')
  {
    GetPut(v, p, w);
    if p != [] {
      var c := GetStep(v, p[0]).value;
      PutStepLaws(v, p[0], Put(c, p[1..], w), Put(c, p[1..], w'));
      PutPut(c, p[1..], w, w');
    }
  }

  /** Writing back what is there changes nothing. */
  lemma {:induction false} PutGet(v: Val, p: Steps)
    requires Get(v, p).Some?
    ensures Put(v, p, Get(v, p).value) == v
  {
    if p != [] {
      var c := GetStep(v, p[0]).value;
      PutGet(c, p[1..]);
      PutStepLaws(v, p[0], c, c);
    }
  }

  lemma {:induction false} GetSnoc(v: Val, p: Steps, s: Step)
    requires Get(v, p).Some?
    ensures Get(v, p + [s]) == GetStep(Get(v, p).value, s)
  {
    if p == [] {
      assert [] + [s] == [s];
      assert [s][1..] == [];
    } else {
      assert (p + [s])[1..] == p[1..] + [s];
      GetSnoc(GetStep(v, p[0]).value, p[1..], s);
    }
  }

  /** Writing one step further down rewrites the value above. */
  lemma {:induction false} PutSnoc(v: Val, p: Steps, s: Step, w: Val)
    requires Get(v, p).Some? && GetStep(Get(v, p).value, s).Some?
    ensures Get(v, p + [s]).Some?
    ensures Put(v, p + [s], w) == Put(v, p, PutStep(Get(v, p).value, s, w))
  {
    GetSnoc(v, p, s);
    if p == [] {
      assert [] + [s] == [s];
      assert [s][1..] == [];
    } else {
      assert (p + [s])[1..] == p[1..] + [s];
      PutSnoc(GetStep(v, p[0]).value, p[1..], s, w);
    }
  }
}
