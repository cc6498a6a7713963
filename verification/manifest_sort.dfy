/**
  Key sorting of the dependency-like groups of a `package.json` manifest.

  `sortProperties` rebuilds the five groups `dependencies`, `devDependencies`,
  `peerDependencies`, `optionalDependencies` and `scripts`; the older
  `sortDependencies` rebuilds only the first four. Both build a `sorted`
  object holding, for every truthy group, a fresh object whose keys are
  inserted in ascending order, and return `{...packageJson, ...sorted}`.
  The two are one function here, parameterised by the group list.
*/
module ManifestSort {
  import opened Wrappers
  import opened Strings
  import opened AssocList
  import opened Json

  /** The groups `sortProperties` rebuilds. */
  const PropertyGroups: seq<string> :=
    ["dependencies", "devDependencies", "peerDependencies", "optionalDependencies", "scripts"]

  /** The groups `sortDependencies` rebuilds: no `scripts`. */
  const DependencyGroups: seq<string> :=
    ["dependencies", "devDependencies", "peerDependencies", "optionalDependencies"]

  /** `sorted[prop] = {}`, then `sorted[prop][name] = v[name]` for each name of `Object.keys(v).sort()`. */
  function SortedGroup(v: Json): (r: Json)
    ensures r.Obj? && UniqueKeys(r.fields)
    ensures UniqueKeys(OwnEntries(v)) ==>
              multiset(r.fields) == multiset(OwnEntries(v)) && KeysStrictlyAscending(r.fields)
  {
    SortedEntries(OwnEntries(v));
    Obj(Assign([], SortByKey(OwnEntries(v))))
  }

  lemma SortedEntries(es: Entries<Json>)
    ensures UniqueKeys(Assign([], SortByKey(es)))
    ensures UniqueKeys(es) ==> Assign([], SortByKey(es)) == SortByKey(es)
    ensures UniqueKeys(es) ==>
              multiset(SortByKey(es)) == multiset(es) && KeysStrictlyAscending(SortByKey(es))
  {
    var sorted := SortByKey(es);
    AssignUnique([], sorted);
    if UniqueKeys(es) {
      SortByKeyUnique(es);
      AssignIntoEmpty(sorted);
      AscendingUniqueIsStrict(sorted);
    }
  }

  /** The for-loop over the group names, building the `sorted` object. */
  function CollectSorted(groups: seq<string>, pkg: Entries<Json>, sorted: Entries<Json>): Entries<Json>
    decreases |groups|
  {
    if groups == [] then sorted
    else
      var prop := groups[0];
      var found := Lookup(pkg, prop);
      var next := if found.Some? && Truthy(found.value) then Put(sorted, prop, SortedGroup(found.value)) else sorted;
      CollectSorted(groups[1..], pkg, next)
  }

  /** `{...packageJson, ...sorted}` for the given group list. */
  function SortGroups(groups: seq<string>, pkg: Entries<Json>): (r: Entries<Json>)
    ensures UniqueKeys(pkg) ==> Keys(r) == Keys(pkg) && |r| == |pkg|
    ensures UniqueKeys(pkg) ==>
              forall i :: 0 <= i < |pkg| ==> r[i] == (pkg[i].0, GroupValue(groups, pkg[i].0, pkg[i].1))
  {
    SortGroupsPointwise(groups, pkg);
    Assign(Assign([], pkg), CollectSorted(groups, pkg, []))
  }

  /**
    What happens to one top-level entry: a truthy group is replaced by its
    sorted copy, everything else keeps its value.
  */
  function GroupValue(groups: seq<string>, key: string, v: Json): Json {
    if key in groups && Truthy(v) then SortedGroup(v) else v
  }

  // ---------------------------------------------------------------------
  // The two entry points.

  /**
    `sortProperties`: the five groups, when truthy, hold the same entries
    with strictly ascending keys; every other top-level entry, and every
    falsy or absent group, is left as it was; the top-level key sequence is
    unchanged, so no group is invented.
  */
  function SortProperties(pkg: Entries<Json>): (r: Entries<Json>)
    ensures WellFormed(Obj(pkg)) ==> Keys(r) == Keys(pkg)
    ensures WellFormed(Obj(pkg)) ==>
              forall i :: 0 <= i < |pkg| ==>
                if pkg[i].0 in PropertyGroups && Truthy(pkg[i].1)
                then SortedCopy(pkg[i].1, r[i].1)
                else r[i] == pkg[i]
  {
    SortGroupsSpec(PropertyGroups, pkg);
    SortGroups(PropertyGroups, pkg)
  }

  /**
    `sortDependencies`: as `SortProperties` for the four dependency groups;
    `scripts` in particular keeps its own order.
  */
  function SortDependencies(pkg: Entries<Json>): (r: Entries<Json>)
    ensures WellFormed(Obj(pkg)) ==> Keys(r) == Keys(pkg)
    ensures WellFormed(Obj(pkg)) ==>
              forall i :: 0 <= i < |pkg| ==>
                if pkg[i].0 in DependencyGroups && Truthy(pkg[i].1)
                then SortedCopy(pkg[i].1, r[i].1)
                else r[i] == pkg[i]
    ensures WellFormed(Obj(pkg)) ==>
              forall i :: 0 <= i < |pkg| && pkg[i].0 == "scripts" ==> r[i] == pkg[i]
  {
    SortGroupsSpec(DependencyGroups, pkg);
    ScriptsIsNoDependencyGroup();
    SortGroups(DependencyGroups, pkg)
  }

  lemma ScriptsIsNoDependencyGroup()
    ensures "scripts" !in DependencyGroups
  {
    assert "scripts"[0] == 's';
    assert forall i :: 0 <= i < |DependencyGroups| ==> DependencyGroups[i][0] != 's';
  }

  /** `after` is an object with exactly the entries of `before` and strictly ascending keys. */
  predicate SortedCopy(before: Json, after: Json) {
    after.Obj? && multiset(after.fields) == multiset(OwnEntries(before)) && KeysStrictlyAscending(after.fields)
  }

  // ---------------------------------------------------------------------
  // Proofs.

  lemma {:induction false} AssignUnique(target: Entries<Json>, source: Entries<Json>)
    requires UniqueKeys(target)
    ensures UniqueKeys(Assign(target, source))
    decreases |source|
  {
    if source != [] {
      AssignUnique(Put(target, source[0].0, source[0].1), source[1..]);
    }
  }

  /** The `sorted` object holds exactly the truthy groups, each replaced by its sorted copy. */
  lemma {:induction false} CollectSortedLookup(groups: seq<string>, pkg: Entries<Json>, sorted: Entries<Json>, k: string)
    ensures Lookup(CollectSorted(groups, pkg, sorted), k) ==
              (if k in groups && Lookup(pkg, k).Some? && Truthy(Lookup(pkg, k).value)
               then Some(SortedGroup(Lookup(pkg, k).value))
               else Lookup(sorted, k))
    decreases |groups|
  {
    if groups != [] {
      var prop := groups[0];
      var found := Lookup(pkg, prop);
      var next := if found.Some? && Truthy(found.value) then Put(sorted, prop, SortedGroup(found.value)) else sorted;
      CollectSortedLookup(groups[1..], pkg, next, k);
      if k != prop && found.Some? && Truthy(found.value) {
        PutLookupOther(sorted, prop, SortedGroup(found.value), k);
      }
    }
  }

  lemma {:induction false} CollectSortedUnique(groups: seq<string>, pkg: Entries<Json>, sorted: Entries<Json>)
    requires UniqueKeys(sorted)
    ensures UniqueKeys(CollectSorted(groups, pkg, sorted))
    decreases |groups|
  {
    if groups != [] {
      var prop := groups[0];
      var found := Lookup(pkg, prop);
      var next := if found.Some? && Truthy(found.value) then Put(sorted, prop, SortedGroup(found.value)) else sorted;
      CollectSortedUnique(groups[1..], pkg, next);
    }
  }

  /** Spread-overwrite agrees with the position-by-position description `GroupValue`. */
  lemma SortGroupsPointwise(groups: seq<string>, pkg: Entries<Json>)
    ensures var r := Assign(Assign([], pkg), CollectSorted(groups, pkg, []));
            UniqueKeys(pkg) ==>
              Keys(r) == Keys(pkg) && |r| == |pkg| &&
              forall i :: 0 <= i < |pkg| ==> r[i] == (pkg[i].0, GroupValue(groups, pkg[i].0, pkg[i].1))
  {
    if UniqueKeys(pkg) {
      SortGroupsPointwiseUnique(groups, pkg);
    }
  }

  lemma SortGroupsPointwiseUnique(groups: seq<string>, pkg: Entries<Json>)
    requires UniqueKeys(pkg)
    ensures var r := Assign(Assign([], pkg), CollectSorted(groups, pkg, []));
            Keys(r) == Keys(pkg) && |r| == |pkg| &&
            forall i :: 0 <= i < |pkg| ==> r[i] == (pkg[i].0, GroupValue(groups, pkg[i].0, pkg[i].1))
  {
    var sorted := CollectSorted(groups, pkg, []);
    AssignIntoEmpty(pkg);
    CollectSortedUnique(groups, pkg, []);
    forall k | k in Keys(sorted)
      ensures k in Keys(pkg)
    {
      CollectSortedLookup(groups, pkg, [], k);
    }
    AssignOverwrites(pkg, sorted);
    var r := Assign(pkg, sorted);
    forall i | 0 <= i < |pkg|
      ensures r[i] == (pkg[i].0, GroupValue(groups, pkg[i].0, pkg[i].1))
    {
      assert r[i].0 == Keys(r)[i] == Keys(pkg)[i];
      CollectSortedLookup(groups, pkg, [], pkg[i].0);
      LookupUnique(pkg, i);
    }
  }

  /** Unfolds `SortGroups` into the per-entry statement the entry points export. */
  lemma SortGroupsSpec(groups: seq<string>, pkg: Entries<Json>)
    ensures var r := SortGroups(groups, pkg);
            WellFormed(Obj(pkg)) ==>
              Keys(r) == Keys(pkg) &&
              forall i :: 0 <= i < |pkg| ==>
                if pkg[i].0 in groups && Truthy(pkg[i].1)
                then SortedCopy(pkg[i].1, r[i].1)
                else r[i] == pkg[i]
  {
    if WellFormed(Obj(pkg)) {
      var r := SortGroups(groups, pkg);
      forall i | 0 <= i < |pkg|
        ensures if pkg[i].0 in groups && Truthy(pkg[i].1)
                then SortedCopy(pkg[i].1, r[i].1)
                else r[i] == pkg[i]
      {
        GroupValueSpec(groups, pkg[i].0, pkg[i].1);
      }
    }
  }

  lemma GroupValueSpec(groups: seq<string>, key: string, v: Json)
    requires WellFormed(v)
    ensures if key in groups && Truthy(v)
            then SortedCopy(v, GroupValue(groups, key, v))
            else GroupValue(groups, key, v) == v
  {
    OwnEntriesUnique(v);
  }

  /** Re-sorting an already sorted group changes nothing. */
  lemma SortedGroupIdempotent(v: Json)
    requires UniqueKeys(OwnEntries(v))
    ensures SortedGroup(SortedGroup(v)) == SortedGroup(v)
  {
    var fs := SortedGroup(v).fields;
    var sorted := SortByKey(OwnEntries(v));
    SortByKeyUnique(OwnEntries(v));
    AssignIntoEmpty(sorted);
    assert fs == sorted;
    SortByKeySorted(fs);
    assert OwnEntries(SortedGroup(v)) == fs;
  }

  /** Sorting the groups twice is the same as sorting them once. */
  lemma SortGroupsIdempotent(groups: seq<string>, pkg: Entries<Json>)
    requires WellFormed(Obj(pkg))
    ensures SortGroups(groups, SortGroups(groups, pkg)) == SortGroups(groups, pkg)
  {
    var r1 := SortGroups(groups, pkg);
    assert UniqueKeys(r1) by {
      assert Keys(r1) == Keys(pkg);
      forall i, j | 0 <= i < j < |r1|
        ensures r1[i].0 != r1[j].0
      {
        assert r1[i].0 == Keys(pkg)[i] && r1[j].0 == Keys(pkg)[j];
      }
    }
    var r2 := SortGroups(groups, r1);
    forall i | 0 <= i < |r1|
      ensures r2[i] == r1[i]
    {
      var k, v := pkg[i].0, pkg[i].1;
      if k in groups && Truthy(v) {
        assert WellFormed(v);
        OwnEntriesUnique(v);
        SortedGroupIdempotent(v);
      }
    }
  }

  lemma SortPropertiesIdempotent(pkg: Entries<Json>)
    requires WellFormed(Obj(pkg))
    ensures SortProperties(SortProperties(pkg)) == SortProperties(pkg)
  {
    SortGroupsIdempotent(PropertyGroups, pkg);
  }

  lemma SortDependenciesIdempotent(pkg: Entries<Json>)
    requires WellFormed(Obj(pkg))
    ensures SortDependencies(SortDependencies(pkg)) == SortDependencies(pkg)
  {
    SortGroupsIdempotent(DependencyGroups, pkg);
  }
}
