/**
  JavaScript objects as insertion-ordered association lists.

  A plain object with string keys enumerates its keys in insertion order
  (integer-like keys aside). `obj[k] = v` replaces the value in place when
  `k` is already a key and appends it otherwise; object spread
  `{...t, ...s}` performs that assignment for each entry of `s` in order.
*/
module AssocList {
  import opened Wrappers
  import opened Strings

  type Entries<V> = seq<(string, V)>

  function Keys<V>(es: Entries<V>): (ks: seq<string>)
    ensures |ks| == |es|
    ensures forall i :: 0 <= i < |es| ==> ks[i] == es[i].0
  {
    seq(|es|, i requires 0 <= i < |es| => es[i].0)
  }

  lemma KeysCons<V>(es: Entries<V>)
    requires es != []
    ensures Keys(es) == [es[0].0] + Keys(es[1..])
  {
  }

  /** A JavaScript object never holds the same key twice. */
  predicate UniqueKeys<V>(es: Entries<V>) {
    forall i, j :: 0 <= i < j < |es| ==> es[i].0 != es[j].0
  }

  /** `obj[k]`: the value stored under `k`, or `undefined`. */
  function Lookup<V>(es: Entries<V>, k: string): (r: Option<V>)
    ensures r.Some? <==> k in Keys(es)
    decreases |es|
  {
    if es == [] then None
    else if es[0].0 == k then Some(es[0].1)
    else
      KeysCons(es);
      Lookup(es[1..], k)
  }

  /** A value found under `k` is stored in an entry with key `k`. */
  lemma {:induction false} LookupFound<V>(es: Entries<V>, k: string)
    ensures Lookup(es, k).Some? ==> exists i :: 0 <= i < |es| && es[i] == (k, Lookup(es, k).value)
    decreases |es|
  {
    if es != [] && es[0].0 != k {
      LookupFound(es[1..], k);
      if Lookup(es, k).Some? {
        var i :| 0 <= i < |es[1..]| && es[1..][i] == (k, Lookup(es, k).value);
        assert es[i + 1] == es[1..][i];
      }
    }
  }

  lemma LookupUnique<V>(es: Entries<V>, i: int)
    requires UniqueKeys(es) && 0 <= i < |es|
    ensures Lookup(es, es[i].0) == Some(es[i].1)
  {
    var r := Lookup(es, es[i].0);
    LookupFound(es, es[i].0);
    var j :| 0 <= j < |es| && es[j] == (es[i].0, r.value);
    assert i == j;
  }

  /** Position of the first entry whose key is `k`. */
  function IndexOf<V>(es: Entries<V>, k: string): (n: nat)
    requires k in Keys(es)
    ensures n < |es| && es[n].0 == k
    ensures forall j :: 0 <= j < n ==> es[j].0 != k
  {
    IndexFrom(es, k, 0)
  }

  /** The search of `IndexOf`, from position `from` on, none before it having key `k`. */
  function IndexFrom<V>(es: Entries<V>, k: string, from: nat): (n: nat)
    requires k in Keys(es) && forall j :: 0 <= j < from && j < |es| ==> es[j].0 != k
    ensures from <= n < |es| && es[n].0 == k
    ensures forall j :: 0 <= j < n ==> es[j].0 != k
    decreases |es| - from
  {
    var i :| 0 <= i < |es| && Keys(es)[i] == k;
    assert from <= i;
    if es[from].0 == k then from else IndexFrom(es, k, from + 1)
  }

  /** `obj[k] = v`: an existing key keeps its position, a new key goes last. */
  function Put<V>(es: Entries<V>, k: string, v: V): (r: Entries<V>)
    ensures k in Keys(es) ==> Keys(r) == Keys(es)
    ensures k !in Keys(es) ==> Keys(r) == Keys(es) + [k]
    ensures Lookup(r, k) == Some(v)
    ensures UniqueKeys(es) ==> UniqueKeys(r)
  {
    if k in Keys(es) then
      var n := IndexOf(es, k);
      var r := es[n := (k, v)];
      assert Keys(r) == Keys(es);
      assert r[n] == (k, v);
      assert forall j :: 0 <= j < n ==> r[j].0 != k;
      PutLookupFirst(r, n, k, v);
      r
    else
      var r := es + [(k, v)];
      assert Keys(r) == Keys(es) + [k];
      PutLookupFirst(r, |es|, k, v);
      r
  }

  lemma PutLookupFirst<V>(r: Entries<V>, n: int, k: string, v: V)
    requires 0 <= n < |r| && r[n] == (k, v)
    requires forall j :: 0 <= j < n ==> r[j].0 != k
    ensures Lookup(r, k) == Some(v)
    decreases n
  {
    if n > 0 {
      PutLookupFirst(r[1..], n - 1, k, v);
    }
  }

  /** After `obj[k] = v`, looking up `k` gives `v` and any other key what it gave before. */
  lemma PutLookup<V>(es: Entries<V>, k: string, v: V, other: string)
    ensures Lookup(Put(es, k, v), other) == if other == k then Some(v) else Lookup(es, other)
  {
    if other != k {
      PutLookupOther(es, k, v, other);
    }
  }

  /** Assigning one key leaves every other key's value alone. */
  lemma PutLookupOther<V>(es: Entries<V>, k: string, v: V, other: string)
    requires other != k
    ensures Lookup(Put(es, k, v), other) == Lookup(es, other)
  {
    var r := Put(es, k, v);
    if other in Keys(es) {
      var m := IndexOf(es, other);
      assert Keys(r)[..|es|] == Keys(es);
      assert r[m] == es[m];
      forall j | 0 <= j < m
        ensures r[j].0 != other
      {
        assert r[j].0 == Keys(r)[j] == Keys(es)[j];
      }
      PutLookupFirst(r, m, other, es[m].1);
      PutLookupFirst(es, m, other, es[m].1);
    }
  }

  /** What `Put` does to each position when the key is already present. */
  lemma PutInPlace<V>(es: Entries<V>, k: string, v: V)
    requires UniqueKeys(es) && k in Keys(es)
    ensures |Put(es, k, v)| == |es|
    ensures forall i :: 0 <= i < |es| ==>
              Put(es, k, v)[i] == (if es[i].0 == k then (k, v) else es[i])
  {
  }

  /** Object spread: `{...target, ...source}` assigns the entries of `source` in order. */
  function Assign<V>(target: Entries<V>, source: Entries<V>): Entries<V>
    decreases |source|
  {
    if source == [] then target
    else Assign(Put(target, source[0].0, source[0].1), source[1..])
  }

  /** Spreading an object into a fresh one copies it unchanged. */
  lemma {:induction false} AssignIntoEmpty<V>(es: Entries<V>)
    requires UniqueKeys(es)
    ensures Assign([], es) == es
  {
    AssignAppends([], es);
  }

  lemma {:induction false} AssignAppends<V>(target: Entries<V>, source: Entries<V>)
    requires UniqueKeys(target + source)
    ensures Assign(target, source) == target + source
    decreases |source|
  {
    if source != [] {
      var k := source[0].0;
      assert (target + source)[|target|] == source[0];
      forall n | 0 <= n < |target|
        ensures target[n].0 != k
      {
        assert (target + source)[n] == target[n];
      }
      assert Put(target, k, source[0].1) == target + [source[0]];
      assert target + source == (target + [source[0]]) + source[1..];
      AssignAppends(target + [source[0]], source[1..]);
    }
  }

  /**
    When every key of `source` is already a key of `target`, spreading
    `source` over `target` keeps `target`'s key sequence and replaces, in
    place, exactly the values `source` names.
  */
  lemma {:induction false} AssignOverwrites<V>(target: Entries<V>, source: Entries<V>)
    requires UniqueKeys(target) && UniqueKeys(source)
    requires forall k :: k in Keys(source) ==> k in Keys(target)
    ensures Keys(Assign(target, source)) == Keys(target)
    ensures |Assign(target, source)| == |target|
    ensures forall i :: 0 <= i < |target| ==>
              Assign(target, source)[i].1 ==
                (if target[i].0 in Keys(source) then Lookup(source, target[i].0).value else target[i].1)
    decreases |source|
  {
    if source != [] {
      var k, v := source[0].0, source[0].1;
      var rest := source[1..];
      UniqueTail(source);
      var mid := Put(target, k, v);
      PutInPlace(target, k, v);
      AssignOverwrites(mid, rest);
      forall i | 0 <= i < |target|
        ensures Assign(target, source)[i].1 ==
                  (if target[i].0 in Keys(source) then Lookup(source, target[i].0).value else target[i].1)
      {
        if target[i].0 != k {
          assert Lookup(source, target[i].0) == Lookup(rest, target[i].0);
        }
      }
    }
  }

  // ---------------------------------------------------------------------
  // Sorting entries by key, as `Object.keys(o).sort()` followed by
  // re-insertion does.

  /** Keys never decrease along the list. */
  predicate KeysAscending<V>(es: Entries<V>) {
    forall i, j :: 0 <= i < j < |es| ==> Below(es[i].0, es[j].0)
  }

  /** Keys strictly increase along the list. */
  predicate KeysStrictlyAscending<V>(es: Entries<V>) {
    forall i, j :: 0 <= i < j < |es| ==> Less(es[i].0, es[j].0)
  }

  /** Insert `e` before the first entry whose key does not sort before it (stable). */
  function Insert<V>(e: (string, V), es: Entries<V>): (r: Entries<V>)
    requires KeysAscending(es)
    ensures multiset(r) == multiset(es) + multiset{e}
    ensures KeysAscending(r)
    decreases |es|
  {
    if es == [] then [e]
    else if Below(e.0, es[0].0) then
      InsertFront(e, es);
      [e] + es
    else
      var tail := Insert(e, es[1..]);
      assert es == [es[0]] + es[1..];
      InsertBehind(e, es, tail);
      [es[0]] + tail
  }

  lemma InsertFront<V>(e: (string, V), es: Entries<V>)
    requires KeysAscending(es) && es != [] && Below(e.0, es[0].0)
    ensures KeysAscending([e] + es)
  {
    var r := [e] + es;
    forall i, j | 0 <= i < j < |r|
      ensures Below(r[i].0, r[j].0)
    {
      if i == 0 && j > 1 {
        BelowTransitive(e.0, es[0].0, es[j - 1].0);
      }
    }
  }

  lemma InsertBehind<V>(e: (string, V), es: Entries<V>, tail: Entries<V>)
    requires KeysAscending(es) && es != [] && !Below(e.0, es[0].0)
    requires KeysAscending(tail) && multiset(tail) == multiset(es[1..]) + multiset{e}
    ensures KeysAscending([es[0]] + tail)
  {
    BelowTotal(e.0, es[0].0);
    var r := [es[0]] + tail;
    forall i, j | 0 <= i < j < |r|
      ensures Below(r[i].0, r[j].0)
    {
      if i == 0 {
        var x := tail[j - 1];
        assert x in multiset(tail);
        if x != e {
          assert x in multiset(es[1..]);
          assert x in es[1..];
          var m :| 0 <= m < |es[1..]| && es[1..][m] == x;
          assert es[m + 1] == x;
        }
      }
    }
  }

  /** Insertion sort by key; stable, like the engine's `Array.prototype.sort`. */
  function SortByKey<V>(es: Entries<V>): (r: Entries<V>)
    ensures multiset(r) == multiset(es)
    ensures KeysAscending(r)
    decreases |es|
  {
    if es == [] then []
    else
      assert es == [es[0]] + es[1..];
      Insert(es[0], SortByKey(es[1..]))
  }

  /** Two lists with the same entries have the same keys. */
  lemma SameKeys<V>(a: Entries<V>, b: Entries<V>, k: string)
    requires multiset(a) == multiset(b)
    ensures k in Keys(a) <==> k in Keys(b)
  {
    if k in Keys(a) {
      var i :| 0 <= i < |a| && a[i].0 == k;
      assert a[i] in multiset(b);
      var j :| 0 <= j < |b| && b[j] == a[i];
      assert Keys(b)[j] == k;
    }
    if k in Keys(b) {
      var i :| 0 <= i < |b| && b[i].0 == k;
      assert b[i] in multiset(a);
      var j :| 0 <= j < |a| && a[j] == b[i];
      assert Keys(a)[j] == k;
    }
  }

  /** Sorting a JavaScript object's entries keeps its keys distinct. */
  lemma {:induction false} SortByKeyUnique<V>(es: Entries<V>)
    requires UniqueKeys(es)
    ensures UniqueKeys(SortByKey(es))
    decreases |es|
  {
    if es != [] {
      var rest := SortByKey(es[1..]);
      SortByKeyUnique(es[1..]);
      forall n | 0 <= n < |es[1..]|
        ensures es[1..][n].0 != es[0].0
      {
        assert es[1..][n] == es[n + 1];
      }
      SameKeys(rest, es[1..], es[0].0);
      InsertUnique(es[0], rest);
    }
  }

  lemma {:induction false} InsertUnique<V>(e: (string, V), es: Entries<V>)
    requires KeysAscending(es) && UniqueKeys(es) && e.0 !in Keys(es)
    ensures UniqueKeys(Insert(e, es))
    decreases |es|
  {
    if es == [] || Below(e.0, es[0].0) {
      ConsUnique(e, es);
    } else {
      var tail := Insert(e, es[1..]);
      UniqueTail(es);
      InsertUnique(e, es[1..]);
      SameKeys(tail, es[1..] + [e], es[0].0);
      assert Keys(es[1..] + [e]) == Keys(es[1..]) + [e.0];
      ConsUnique(es[0], tail);
    }
  }

  /** The entries after the first of a list with distinct keys: distinct keys, none the first's. */
  lemma UniqueTail<V>(es: Entries<V>)
    requires UniqueKeys(es) && es != []
    ensures UniqueKeys(es[1..]) && es[0].0 !in Keys(es[1..])
    ensures forall k :: k in Keys(es) <==> k == es[0].0 || k in Keys(es[1..])
  {
    KeysCons(es);
    forall n | 0 <= n < |es[1..]|
      ensures Keys(es[1..])[n] != es[0].0
    {
      assert es[1..][n] == es[n + 1];
    }
  }

  /** An entry whose key is new, in front of a list with distinct keys. */
  lemma ConsUnique<V>(e: (string, V), es: Entries<V>)
    requires UniqueKeys(es) && e.0 !in Keys(es)
    ensures UniqueKeys([e] + es)
  {
    var r := [e] + es;
    forall i, j | 0 <= i < j < |r|
      ensures r[i].0 != r[j].0
    {
      if i == 0 {
        assert r[j].0 == Keys(es)[j - 1];
      } else {
        assert r[i] == es[i - 1] && r[j] == es[j - 1];
      }
    }
  }

  /** Distinct keys in ascending order are strictly ascending. */
  lemma AscendingUniqueIsStrict<V>(es: Entries<V>)
    requires KeysAscending(es) && UniqueKeys(es)
    ensures KeysStrictlyAscending(es)
  {
  }

  /** Sorting a list that is already in key order returns it unchanged. */
  lemma {:induction false} SortByKeySorted<V>(es: Entries<V>)
    requires KeysAscending(es)
    ensures SortByKey(es) == es
    decreases |es|
  {
    if es != [] {
      SortByKeySorted(es[1..]);
      assert es == [es[0]] + es[1..];
    }
  }
}
