/**
  Dependency curation: `generateDependencies` picks, for each wanted name, a
  version from the tool's own manifest, and `dependenciesByTemplate` names the
  wanted sets per template.
*/
module Curation {
  import opened Wrappers
  import opened Strings
  import opened AssocList

  /** The tool's own `package.json`: two pools mapping names to version strings. */
  datatype CliPackage = CliPackage(dependencies: Entries<string>, devDependencies: Entries<string>)

  /** `new Set(xs)`: first occurrences, in order. */
  function SetOf(xs: seq<string>): (r: seq<string>)
    ensures Distinct(r)
    ensures forall x :: x in r <==> x in xs
    ensures Distinct(xs) ==> r == xs
  {
    SetOfFrom([], xs)
  }

  function SetOfFrom(seen: seq<string>, xs: seq<string>): (r: seq<string>)
    requires Distinct(seen)
    ensures Distinct(r)
    ensures forall x :: x in r <==> x in seen || x in xs
    ensures Distinct(seen + xs) ==> r == seen + xs
    decreases |xs|
  {
    if xs == [] then seen
    else if xs[0] in seen then
      assert !Distinct(seen + xs) by {
        var i :| 0 <= i < |seen| && seen[i] == xs[0];
        assert (seen + xs)[i] == (seen + xs)[|seen|];
      }
      SetOfFrom(seen, xs[1..])
    else
      assert seen + xs == (seen + [xs[0]]) + xs[1..];
      SetOfFrom(seen + [xs[0]], xs[1..])
  }

  // ---------------------------------------------------------------------
  // generateDependencies

  /**
    `cliPackage.devDependencies[dep] || cliPackage.dependencies[dep]`: `None`
    stands for `undefined`. The empty string is falsy, so an empty dev
    version falls through to the other pool.
  */
  function PickVersion(cli: CliPackage, dep: string): Option<string> {
    var dev := Lookup(cli.devDependencies, dep);
    if dev.Some? && dev.value != "" then dev else Lookup(cli.dependencies, dep)
  }

  /** The loop body, once per wanted name in the set's iteration order. */
  function FillVersions(cli: CliPackage, acc: Entries<Option<string>>, names: seq<string>): Entries<Option<string>>
    decreases |names|
  {
    if names == [] then acc
    else FillVersions(cli, Put(acc, names[0], PickVersion(cli, names[0])), names[1..])
  }

  /**
    `generateDependencies`: the result's keys are exactly the wanted names,
    in the set's iteration order (not sorted), each mapped to the version
    `PickVersion` chooses; no wanted set gives an empty object.
  */
  function GenerateDependencies(cli: CliPackage, wanted: Option<seq<string>>): (r: Entries<Option<string>>)
    ensures wanted.None? ==> r == []
    ensures wanted.Some? && Distinct(wanted.value) ==> Keys(r) == wanted.value
    ensures forall n :: Lookup(r, n) == (if wanted.Some? && n in wanted.value then Some(PickVersion(cli, n)) else None)
  {
    var names := if wanted.Some? then wanted.value else [];
    FillKeys(cli, [], names);
    forall n
      ensures Lookup(FillVersions(cli, [], names), n) == (if n in names then Some(PickVersion(cli, n)) else None)
    {
      FillLookup(cli, [], names, n);
    }
    FillVersions(cli, [], names)
  }

  lemma {:induction false} FillLookup(cli: CliPackage, acc: Entries<Option<string>>, names: seq<string>, n: string)
    ensures Lookup(FillVersions(cli, acc, names), n) == (if n in names then Some(PickVersion(cli, n)) else Lookup(acc, n))
    decreases |names|
  {
    if names != [] {
      var x := names[0];
      var v := PickVersion(cli, x);
      FillLookup(cli, Put(acc, x, v), names[1..], n);
      PutLookup(acc, x, v, n);
      assert n in names <==> n == x || n in names[1..] by {
        assert names == [x] + names[1..];
      }
    }
  }

  lemma {:induction false} FillKeys(cli: CliPackage, acc: Entries<Option<string>>, names: seq<string>)
    ensures Distinct(Keys(acc) + names) ==> Keys(FillVersions(cli, acc, names)) == Keys(acc) + names
    decreases |names|
  {
    if names != [] && Distinct(Keys(acc) + names) {
      var x := names[0];
      var next := Put(acc, x, PickVersion(cli, x));
      forall i | 0 <= i < |Keys(acc)|
        ensures Keys(acc)[i] != x
      {
        assert (Keys(acc) + names)[i] == Keys(acc)[i];
        assert (Keys(acc) + names)[|Keys(acc)|] == x;
      }
      assert Keys(next) == Keys(acc) + [x];
      assert Keys(acc) + names == Keys(next) + names[1..];
      FillKeys(cli, next, names[1..]);
    }
  }

  /** The rules behind `PickVersion`, case by case. */
  lemma PickVersionCases(cli: CliPackage, dep: string)
    ensures Lookup(cli.devDependencies, dep).Some? && Lookup(cli.devDependencies, dep).value != "" ==>
              PickVersion(cli, dep) == Lookup(cli.devDependencies, dep)
    ensures Lookup(cli.devDependencies, dep).None? ==>
              PickVersion(cli, dep) == Lookup(cli.dependencies, dep)
    ensures Lookup(cli.devDependencies, dep) == Some("") ==>
              PickVersion(cli, dep) == Lookup(cli.dependencies, dep)
    ensures dep !in Keys(cli.devDependencies) && dep !in Keys(cli.dependencies) ==>
              PickVersion(cli, dep) == None
  {
  }

  // ---------------------------------------------------------------------
  // The test fixture of the curator and what the code gives for it.

  function FixturePackage(): CliPackage {
    CliPackage([("d", "4")], [("a", "1"), ("b", "2"), ("c", "3"), ("@test", "0")])
  }

  /** Dev-pool versions are chosen. */
  lemma FixtureDevPool()
    ensures GenerateDependencies(FixturePackage(), Some(["b", "c"])) == [("b", Some("2")), ("c", Some("3"))]
  {
    var cli := FixturePackage();
    assert PickVersion(cli, "b") == Some("2");
    assert PickVersion(cli, "c") == Some("3");
  }

  /** A name missing from the dev pool falls back to the dependencies pool. */
  lemma FixtureFallback()
    ensures GenerateDependencies(FixturePackage(), Some(["b", "c", "d"])) ==
              [("b", Some("2")), ("c", Some("3")), ("d", Some("4"))]
  {
    var cli := FixturePackage();
    assert PickVersion(cli, "b") == Some("2");
    assert PickVersion(cli, "c") == Some("3");
    assert PickVersion(cli, "d") == Some("4");
    FixtureFallbackSteps();
  }

  lemma FixtureFallbackSteps()
    ensures FillVersions(FixturePackage(), [], ["b", "c", "d"]) ==
              [("b", Some("2")), ("c", Some("3")), ("d", Some("4"))]
  {
    var cli := FixturePackage();
    var names: seq<string> := ["b", "c", "d"];
    var a1: Entries<Option<string>> := [("b", Some("2"))];
    var a2: Entries<Option<string>> := [("b", Some("2")), ("c", Some("3"))];
    var a3: Entries<Option<string>> := [("b", Some("2")), ("c", Some("3")), ("d", Some("4"))];
    calc {
      FillVersions(cli, [], names);
      { assert names[1..] == ["c", "d"]; PutStep(cli, [], "b", a1); }
      FillVersions(cli, a1, ["c", "d"]);
      { assert ["c", "d"][1..] == ["d"]; PutStep(cli, a1, "c", a2); }
      FillVersions(cli, a2, ["d"]);
      { PutStep(cli, a2, "d", a3); }
      FillVersions(cli, a3, []);
    }
  }

  /** One fixture step: `Put` of a name that is not yet present appends it with its version. */
  lemma PutStep(cli: CliPackage, acc: Entries<Option<string>>, n: string, next: Entries<Option<string>>)
    requires n !in Keys(acc)
    requires next == acc + [(n, PickVersion(cli, n))]
    ensures Put(acc, n, PickVersion(cli, n)) == next
  {
  }

  /**
    The keys come out in the set's order: for the set `{d, c, @test}` the
    result starts with `d`, while the fixture's third test expects
    `@test, c, d` (alphabetical).
  */
  lemma FixtureOrderIsInsertionOrder()
    ensures Keys(GenerateDependencies(FixturePackage(), Some(["d", "c", "@test"]))) == ["d", "c", "@test"]
    ensures Keys(GenerateDependencies(FixturePackage(), Some(["d", "c", "@test"]))) != ["@test", "c", "d"]
  {
    assert Distinct(["d", "c", "@test"]);
  }

  // ---------------------------------------------------------------------
  // dependenciesByTemplate

  const BaseDevDependencies: seq<string> :=
    ["@types/node", "@vitest/coverage-istanbul", "husky", "lint-staged", "rome", "typescript", "vitest"]

  const BaseDependencies: seq<string> := ["tslib"]

  const AppDevDependencies: seq<string> := SetOf(BaseDevDependencies + ["rimraf", "tsx"])

  const AppDependencies: seq<string> := SetOf(BaseDependencies)

  const LibDevDependencies: seq<string> := SetOf(BaseDevDependencies + ["tsup"])

  const LibDependencies: seq<string> := SetOf(BaseDependencies)

  /** The wanted sets of one template. */
  datatype TemplateDependencies = TemplateDependencies(dependencies: seq<string>, devDependencies: seq<string>)

  /** `dependenciesByTemplate.get(template)`, as written: the `lib` entry holds the app sets and vice versa. */
  function DependenciesByTemplate(template: string): Option<TemplateDependencies> {
    if template == "lib" then Some(TemplateDependencies(AppDependencies, AppDevDependencies))
    else if template == "app" then Some(TemplateDependencies(LibDependencies, LibDevDependencies))
    else None
  }

  lemma SetConstants()
    ensures AppDevDependencies == BaseDevDependencies + ["rimraf", "tsx"]
    ensures LibDevDependencies == BaseDevDependencies + ["tsup"]
    ensures AppDependencies == ["tslib"] && LibDependencies == ["tslib"]
  {
    assert Distinct(BaseDevDependencies + ["rimraf", "tsx"]);
    assert Distinct(BaseDevDependencies + ["tsup"]);
  }

  /**
    The table knows exactly `lib` and `app`; both have `{tslib}` as their
    dependencies set and every base dev dependency in their dev set.
  */
  lemma TableShape(template: string)
    ensures DependenciesByTemplate(template).Some? <==> template == "lib" || template == "app"
    ensures DependenciesByTemplate(template).Some? ==>
              DependenciesByTemplate(template).value.dependencies == ["tslib"]
    ensures DependenciesByTemplate(template).Some? ==>
              forall d :: d in BaseDevDependencies ==> d in DependenciesByTemplate(template).value.devDependencies
  {
    SetConstants();
  }

  /** As written, `lib` gets `rimraf` and `tsx` and no `tsup`; `app` gets only `tsup` on top of the base. */
  lemma TableEntriesSwapped()
    ensures DependenciesByTemplate("lib").value.devDependencies == BaseDevDependencies + ["rimraf", "tsx"]
    ensures "tsup" !in DependenciesByTemplate("lib").value.devDependencies
    ensures DependenciesByTemplate("app").value.devDependencies == BaseDevDependencies + ["tsup"]
    ensures "tsx" !in DependenciesByTemplate("app").value.devDependencies
  {
    SetConstants();
    DevSetsDiffer();
  }

  lemma DevSetsDiffer()
    ensures "tsup" !in BaseDevDependencies + ["rimraf", "tsx"]
    ensures "tsx" in BaseDevDependencies + ["rimraf", "tsx"]
    ensures "tsx" !in BaseDevDependencies + ["tsup"]
    ensures "tsup" in BaseDevDependencies + ["tsup"]
  {
    assert (BaseDevDependencies + ["rimraf", "tsx"])[8] == "tsx";
    assert (BaseDevDependencies + ["tsup"])[7] == "tsup";
  }

  /** The table with each template given its own sets (`lib` the library sets, `app` the application sets). */
  function IntendedDependenciesByTemplate(template: string): Option<TemplateDependencies> {
    if template == "lib" then Some(TemplateDependencies(LibDependencies, LibDevDependencies))
    else if template == "app" then Some(TemplateDependencies(AppDependencies, AppDevDependencies))
    else None
  }

  /**
    The corrected table gives libraries the bundler (`tsup`) and applications
    the runner (`tsx`), and differs from the written one exactly by swapping
    the two entries.
  */
  lemma IntendedTableMatchesTemplates(template: string)
    ensures "tsup" in IntendedDependenciesByTemplate("lib").value.devDependencies
    ensures "tsx" !in IntendedDependenciesByTemplate("lib").value.devDependencies
    ensures "tsx" in IntendedDependenciesByTemplate("app").value.devDependencies
    ensures "tsup" !in IntendedDependenciesByTemplate("app").value.devDependencies
    ensures IntendedDependenciesByTemplate(template) ==
              DependenciesByTemplate(if template == "lib" then "app" else if template == "app" then "lib" else template)
  {
    SetConstants();
    DevSetsDiffer();
  }
}
