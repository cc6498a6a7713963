/**
  JSON values as `JSON.parse` produces them, with objects as insertion-ordered
  association lists, plus the two JavaScript notions the manifest code relies
  on: truthiness and `Object.keys`.
*/
module Json {
  import opened AssocList
  import opened Strings

  /** Numbers are kept as integers; the manifest code never does arithmetic on them. */
  datatype Json =
    | Null
    | Bool(b: bool)
    | Num(n: int)
    | Str(s: string)
    | Arr(items: seq<Json>)
    | Obj(fields: Entries<Json>)

  /** JavaScript truthiness: `null`, `false`, `0` and `""` are falsy; every array and object is truthy. */
  predicate Truthy(v: Json) {
    match v
    case Null => false
    case Bool(b) => b
    case Num(n) => n != 0
    case Str(s) => s != ""
    case Arr(_) => true
    case Obj(_) => true
  }

  /**
    `Object.keys(v)` paired with `v[key]`: an object's own entries, the indices
    of an array or of a string's characters, and nothing for other values.
  */
  function OwnEntries(v: Json): (r: Entries<Json>)
    ensures v.Obj? ==> r == v.fields
    ensures v.Arr? ==> |r| == |v.items| && forall i :: 0 <= i < |r| ==> r[i] == (DecimalName(i), v.items[i])
    ensures v.Str? ==> |r| == |v.s| && forall i :: 0 <= i < |r| ==> r[i] == (DecimalName(i), Str([v.s[i]]))
    ensures !v.Obj? && !v.Arr? && !v.Str? ==> r == []
  {
    match v
    case Obj(fs) => fs
    case Arr(xs) => seq(|xs|, i requires 0 <= i < |xs| => (DecimalName(i), xs[i]))
    case Str(s) => seq(|s|, i requires 0 <= i < |s| => (DecimalName(i), Str([s[i]])))
    case _ => []
  }

  /** Distinct indices have distinct decimal names. */
  lemma {:induction false} DecimalNameInjective(n: nat, m: nat)
    requires DecimalName(n) == DecimalName(m)
    ensures n == m
    decreases n
  {
    var a, b := DecimalName(n), DecimalName(m);
    if n >= 10 && m >= 10 {
      assert a[..|a| - 1] == DecimalName(n / 10);
      assert b[..|b| - 1] == DecimalName(m / 10);
      DecimalNameInjective(n / 10, m / 10);
      assert a[|a| - 1] == DigitChar(n % 10);
      assert b[|b| - 1] == DigitChar(m % 10);
    }
  }

  /** Every object nested in `v` has distinct keys, as every JavaScript object does. */
  predicate WellFormed(v: Json)
    decreases v
  {
    match v
    case Arr(xs) => forall i :: 0 <= i < |xs| ==> WellFormed(xs[i])
    case Obj(fs) => UniqueKeys(fs) && forall i :: 0 <= i < |fs| ==> WellFormed(fs[i].1)
    case _ => true
  }

  /** `Object.keys` never reports a key twice. */
  lemma OwnEntriesUnique(v: Json)
    requires WellFormed(v)
    ensures UniqueKeys(OwnEntries(v))
  {
    var es := OwnEntries(v);
    if v.Arr? || v.Str? {
      forall i, j | 0 <= i < j < |es|
        ensures es[i].0 != es[j].0
      {
        if es[i].0 == es[j].0 {
          DecimalNameInjective(i, j);
        }
      }
    }
  }
}
