/** The Python values stored in documents and class defaults, and Python's
    `==` on them (under which `True == 1` and `False == 0`). */
module PyValues {

  datatype Value =
    | Nil                     // None
    | Bool(b: bool)
    | Int(i: int)
    | Str(s: string)
    | List(items: seq<Value>)

  /** A document or an instance's `__dict__`: field name to value. */
  type Doc = map<string, Value>

  /** The integer a number-like value compares as. */
  function NumberOf(v: Value): int
    requires v.Bool? || v.Int?
  {
    match v
    case Bool(b) => if b then 1 else 0
    case Int(i) => i
  }

  /** Python's `a == b` on the modelled values. */
  predicate Equals(a: Value, b: Value)
    decreases a
  {
    if (a.Bool? || a.Int?) && (b.Bool? || b.Int?) then NumberOf(a) == NumberOf(b)
    else if a.List? && b.List? then
      |a.items| == |b.items| &&
      forall i :: 0 <= i < |a.items| ==> Equals(a.items[i], b.items[i])
    else a == b
  }

  /** Python's `d.get(k)`: the value at `k`, or `None`. */
  function Get(d: Doc, k: string): (v: Value)
    ensures k in d ==> v == d[k]
    ensures k !in d ==> v == Nil
  {
    if k in d then d[k] else Nil
  }

  lemma {:induction false} EqualsReflexive(a: Value)
    ensures Equals(a, a)
  {
    if a.List? {
      forall i | 0 <= i < |a.items|
        ensures Equals(a.items[i], a.items[i])
      {
        EqualsReflexive(a.items[i]);
      }
    }
  }

  lemma {:induction false} EqualsSymmetric(a: Value, b: Value)
    requires Equals(a, b)
    ensures Equals(b, a)
  {
    if a.List? && b.List? {
      forall i | 0 <= i < |b.items|
        ensures Equals(b.items[i], a.items[i])
      {
        EqualsSymmetric(a.items[i], b.items[i]);
      }
    }
  }

  lemma {:induction false} EqualsTransitive(a: Value, b: Value, c: Value)
    requires Equals(a, b) && Equals(b, c)
    ensures Equals(a, c)
  {
    if a.List? && b.List? && c.List? {
      forall i | 0 <= i < |a.items|
        ensures Equals(a.items[i], c.items[i])
      {
        EqualsTransitive(a.items[i], b.items[i], c.items[i]);
      }
    }
  }

  /** `None` equals only `None`. */
  lemma {:induction false} NilEqualsOnlyNil(v: Value)
    ensures Equals(Nil, v) <==> v == Nil
  {
  }
}
