/**
  The renderers that put a project together: each is a short plan of steps
  on the destination folder (write the seed manifest, render a named
  template, create a sub-folder), and `Execute` runs a plan on the
  destination file system with the template engine.

  The current renderers (lib/renderers/app.ts, lib.ts, monorepo.ts) take
  the existing-project mode; the legacy ones (lib/render-app.ts,
  render-lib.ts) always seed. The mode reaches `render` but not the engine,
  which takes only a source and a destination, so a render step carries
  only the template name.
*/
module Plans {
  import opened Wrappers
  import opened AssocList
  import opened Json
  import opened Files
  import opened TemplateRender

  /** What to do with a non-empty target directory: empty it, add to it, or nothing needed. */
  datatype ExistingProject = Force | Inject | Skip

  datatype Step =
    | SeedManifest(name: string)
    | RenderTemplate(template: string)
    | MakeDir(folder: string)

  // ---------------------------------------------------------------------
  // Views of a plan.

  /** The package names seeded, in order. */
  function Seeds(plan: seq<Step>): seq<string> {
    if plan == [] then []
    else (if plan[0].SeedManifest? then [plan[0].name] else []) + Seeds(plan[1..])
  }

  /** The templates rendered, in order. */
  function Templates(plan: seq<Step>): seq<string> {
    if plan == [] then []
    else (if plan[0].RenderTemplate? then [plan[0].template] else []) + Templates(plan[1..])
  }

  /** The sub-folders created, in order. */
  function Folders(plan: seq<Step>): seq<string> {
    if plan == [] then []
    else (if plan[0].MakeDir? then [plan[0].folder] else []) + Folders(plan[1..])
  }

  /** Every step of kind `a` comes before every step of kind `b`. */
  predicate Before(plan: seq<Step>, a: Step -> bool, b: Step -> bool) {
    forall i, j :: 0 <= i < |plan| && 0 <= j < |plan| && a(plan[i]) && b(plan[j]) ==> i < j
  }

  predicate IsSeed(s: Step) { s.SeedManifest? }
  predicate IsRender(s: Step) { s.RenderTemplate? }
  predicate IsMkdir(s: Step) { s.MakeDir? }

  lemma ViewsAppend(a: seq<Step>, b: seq<Step>)
    ensures Seeds(a + b) == Seeds(a) + Seeds(b)
    ensures Templates(a + b) == Templates(a) + Templates(b)
    ensures Folders(a + b) == Folders(a) + Folders(b)
  {
    SeedsAppend(a, b);
    TemplatesAppend(a, b);
    FoldersAppend(a, b);
  }

  lemma {:induction false} SeedsAppend(a: seq<Step>, b: seq<Step>)
    ensures Seeds(a + b) == Seeds(a) + Seeds(b)
    decreases |a|
  {
    if a == [] {
      assert a + b == b;
    } else {
      assert (a + b)[0] == a[0] && (a + b)[1..] == a[1..] + b;
      SeedsAppend(a[1..], b);
    }
  }

  lemma {:induction false} TemplatesAppend(a: seq<Step>, b: seq<Step>)
    ensures Templates(a + b) == Templates(a) + Templates(b)
    decreases |a|
  {
    if a == [] {
      assert a + b == b;
    } else {
      assert (a + b)[0] == a[0] && (a + b)[1..] == a[1..] + b;
      TemplatesAppend(a[1..], b);
    }
  }

  lemma {:induction false} FoldersAppend(a: seq<Step>, b: seq<Step>)
    ensures Folders(a + b) == Folders(a) + Folders(b)
    decreases |a|
  {
    if a == [] {
      assert a + b == b;
    } else {
      assert (a + b)[0] == a[0] && (a + b)[1..] == a[1..] + b;
      FoldersAppend(a[1..], b);
    }
  }

  lemma ViewsSingle(s: Step)
    ensures Seeds([s]) == if s.SeedManifest? then [s.name] else []
    ensures Templates([s]) == if s.RenderTemplate? then [s.template] else []
    ensures Folders([s]) == if s.MakeDir? then [s.folder] else []
  {
    assert [s][1..] == [];
  }

  /** A plan whose steps of kind `b` all sit in its second part, and those of kind `a` in its first. */
  lemma BeforeAppend(x: seq<Step>, y: seq<Step>, a: Step -> bool, b: Step -> bool)
    requires forall i :: 0 <= i < |x| ==> !b(x[i])
    requires forall i :: 0 <= i < |y| ==> !a(y[i])
    ensures Before(x + y, a, b)
  {
    var plan := x + y;
    assert forall i :: 0 <= i < |x| ==> plan[i] == x[i];
    assert forall i :: |x| <= i < |plan| ==> plan[i] == y[i - |x|];
  }

  /** The optional seed at the head of a current plan. */
  lemma SeedPartViews(seed: seq<Step>)
    requires |seed| <= 1 && forall s :: s in seed ==> s.SeedManifest?
    ensures Seeds(seed) == (if seed == [] then [] else [seed[0].name])
    ensures Templates(seed) == [] && Folders(seed) == []
  {
    if seed != [] {
      assert seed == [seed[0]];
      ViewsSingle(seed[0]);
    }
  }

  /** The views of a plan of two or three steps. */
  lemma Views3(a: Step, b: Step, c: Step)
    ensures Seeds([a, b, c]) == Seeds([a]) + Seeds([b]) + Seeds([c])
    ensures Templates([a, b, c]) == Templates([a]) + Templates([b]) + Templates([c])
    ensures Folders([a, b, c]) == Folders([a]) + Folders([b]) + Folders([c])
    ensures Seeds([b, c]) == Seeds([b]) + Seeds([c])
    ensures Templates([b, c]) == Templates([b]) + Templates([c])
    ensures Folders([b, c]) == Folders([b]) + Folders([c])
  {
    assert [a, b, c] == [a] + [b] + [c];
    assert [b, c] == [b] + [c];
    ViewsAppend([a] + [b], [c]);
    ViewsAppend([a], [b]);
    ViewsAppend([b], [c]);
  }

  // ---------------------------------------------------------------------
  // The plans.

  /** `renderApp` (current) and `renderLib` (current), for the template `kind`. */
  function ProjectPlan(kind: string, packageName: Option<string>, existing: ExistingProject): (plan: seq<Step>)
    ensures |Seeds(plan)| <= 1
    ensures Seeds(plan) != [] <==> existing != Inject && packageName.Some?
    ensures forall n :: n in Seeds(plan) ==> packageName == Some(n)
    ensures Templates(plan) == ["base", kind]
    ensures Folders(plan) == []
    ensures Before(plan, IsSeed, IsRender)
  {
    var seed := if existing != Inject && packageName.Some? then [SeedManifest(packageName.value)] else [];
    var plan := seed + [RenderTemplate("base"), RenderTemplate(kind)];
    ViewsAppend(seed, [RenderTemplate("base"), RenderTemplate(kind)]);
    Views3(RenderTemplate("base"), RenderTemplate("base"), RenderTemplate(kind));
    ViewsSingle(RenderTemplate("base"));
    ViewsSingle(RenderTemplate(kind));
    SeedPartViews(seed);
    BeforeAppend(seed, [RenderTemplate("base"), RenderTemplate(kind)], IsSeed, IsRender);
    plan
  }

  /** `renderApp` (lib/renderers/app.ts). */
  function AppPlan(packageName: Option<string>, existing: ExistingProject): seq<Step> {
    ProjectPlan("app", packageName, existing)
  }

  /** `renderLib` (lib/renderers/lib.ts). */
  function LibPlan(packageName: Option<string>, existing: ExistingProject): seq<Step> {
    ProjectPlan("lib", packageName, existing)
  }

  /** `renderMonorepo`: the template, then `apps` and `packages`; never a seed, whatever the mode. */
  function MonorepoPlan(existing: ExistingProject): (plan: seq<Step>)
    ensures Seeds(plan) == []
    ensures Templates(plan) == ["monorepo"]
    ensures Folders(plan) == ["apps", "packages"]
    ensures Before(plan, IsRender, IsMkdir)
  {
    var plan := [RenderTemplate("monorepo"), MakeDir("apps"), MakeDir("packages")];
    Views3(RenderTemplate("monorepo"), MakeDir("apps"), MakeDir("packages"));
    ViewsSingle(RenderTemplate("monorepo"));
    ViewsSingle(MakeDir("apps"));
    ViewsSingle(MakeDir("packages"));
    BeforeAppend([RenderTemplate("monorepo")], [MakeDir("apps"), MakeDir("packages")], IsRender, IsMkdir);
    assert [RenderTemplate("monorepo")] + [MakeDir("apps"), MakeDir("packages")] == plan;
    plan
  }

  /** The legacy `renderApp`/`renderLib`: always a seed, then `base`, then `kind`. */
  function LegacyProjectPlan(kind: string, packageName: string): (plan: seq<Step>)
    ensures |plan| == 3
    ensures Seeds(plan) == [packageName]
    ensures Templates(plan) == ["base", kind]
    ensures Folders(plan) == []
    ensures Before(plan, IsSeed, IsRender)
  {
    var plan := [SeedManifest(packageName), RenderTemplate("base"), RenderTemplate(kind)];
    Views3(SeedManifest(packageName), RenderTemplate("base"), RenderTemplate(kind));
    ViewsSingle(SeedManifest(packageName));
    ViewsSingle(RenderTemplate("base"));
    ViewsSingle(RenderTemplate(kind));
    BeforeAppend([SeedManifest(packageName)], [RenderTemplate("base"), RenderTemplate(kind)], IsSeed, IsRender);
    assert [SeedManifest(packageName)] + [RenderTemplate("base"), RenderTemplate(kind)] == plan;
    plan
  }

  /** The legacy plan is the current one for a known name outside inject mode. */
  lemma LegacyIsCurrentWithoutInject(kind: string, packageName: string, existing: ExistingProject)
    requires existing != Inject
    ensures LegacyProjectPlan(kind, packageName) == ProjectPlan(kind, Some(packageName), existing)
  {
  }

  /** In inject mode, or without a name, the current plan is only the two renders. */
  lemma InjectSkipsSeed(kind: string, packageName: Option<string>, existing: ExistingProject)
    requires existing == Inject || packageName.None?
    ensures ProjectPlan(kind, packageName, existing) == [RenderTemplate("base"), RenderTemplate(kind)]
  {
  }

  // ---------------------------------------------------------------------
  // Running a plan.

  datatype PlanError =
    | StepFailed(error: RenderError)
    | NoTemplate(template: string)

  /** `renderPackageJson`: the seed object, `name` then `version`. */
  function SeedObject(packageName: string): (j: Json)
    ensures j.Obj? && Keys(j.fields) == ["name", "version"]
    ensures Lookup(j.fields, "name") == Some(Str(packageName))
    ensures Lookup(j.fields, "version") == Some(Str("0.0.0"))
  {
    Obj([("name", Str(packageName)), ("version", Str("0.0.0"))])
  }

  /**
    The text the current seed writes: `JSON.stringify(pkg, null, 2)` with no
    trailing newline. The legacy renderers seed through
    lib/render-package-json.ts, which is not part of this model; `Execute`
    takes the seed text as a parameter for that reason.
  */
  function CurrentSeedText(c: Codec, packageName: string): string {
    c.stringify(SeedObject(packageName))
  }

  /** One step on the folder `dest`. */
  function RunStep(v: Variant, c: Codec, seed: string -> string, templates: map<string, Tree>,
                   fs: Fs, dest: Path, s: Step): (r: Result<Fs, PlanError>)
    requires Valid(fs)
    ensures r.Ok? ==> Valid(r.value) && KindsKept(fs, r.value)
    ensures s.SeedManifest? ==> (r.Ok? <==> IsDir(fs, dest) && !IsDir(fs, dest + ["package.json"]))
    ensures s.SeedManifest? && r.Ok? ==> IsFile(r.value, dest + ["package.json"]) && r.value[dest + ["package.json"]].content == seed(s.name)
    ensures s.MakeDir? ==> (r.Ok? <==> AllDirs(fs, dest + [s.folder]))
    ensures s.MakeDir? && r.Ok? ==> IsDir(r.value, dest + [s.folder])
    ensures s.RenderTemplate? && s.template !in templates ==> r == Err(NoTemplate(s.template))
  {
    match s
    case SeedManifest(name) =>
      assert dest + ["package.json"] != [] && Parent(dest + ["package.json"]) == dest;
      var w := WriteFile(fs, dest + ["package.json"], seed(name));
      if w.Ok? then Ok(w.value) else Err(StepFailed(FsFailure(w.error)))
    case RenderTemplate(name) =>
      if name !in templates then Err(NoTemplate(name))
      else
        var w := Render(v, c, templates[name], fs, dest);
        if w.Ok? then Ok(w.value) else Err(StepFailed(w.error))
    case MakeDir(folder) =>
      var w := MkdirP(fs, dest + [folder]);
      if w.Ok? then Ok(w.value) else Err(StepFailed(FsFailure(w.error)))
  }

  /** The steps in order; the first that throws ends the run. */
  function Execute(v: Variant, c: Codec, seed: string -> string, templates: map<string, Tree>,
                   fs: Fs, dest: Path, plan: seq<Step>): (r: Result<Fs, PlanError>)
    requires Valid(fs)
    ensures r.Ok? ==> Valid(r.value) && KindsKept(fs, r.value)
    decreases |plan|
  {
    if plan == [] then Ok(fs)
    else
      var first := RunStep(v, c, seed, templates, fs, dest, plan[0]);
      if first.Err? then Err(first.error)
      else
        var r := Execute(v, c, seed, templates, first.value, dest, plan[1..]);
        assert r.Ok? ==> KindsKept(fs, r.value) by {
          if r.Ok? { KindsKeptTransitive(fs, first.value, r.value); }
        }
        r
  }

  lemma {:induction false} ExecuteAppend(v: Variant, c: Codec, seed: string -> string, templates: map<string, Tree>,
                                         fs: Fs, dest: Path, a: seq<Step>, b: seq<Step>)
    requires Valid(fs)
    ensures var ra := Execute(v, c, seed, templates, fs, dest, a);
      Execute(v, c, seed, templates, fs, dest, a + b) ==
        if ra.Err? then ra else Execute(v, c, seed, templates, ra.value, dest, b)
    decreases |a|
  {
    if a == [] {
      assert a + b == b;
    } else {
      assert (a + b)[0] == a[0] && (a + b)[1..] == a[1..] + b;
      var s := RunStep(v, c, seed, templates, fs, dest, a[0]);
      if s.Ok? {
        ExecuteAppend(v, c, seed, templates, s.value, dest, a[1..], b);
      }
    }
  }

  /** A successful monorepo run is the render, then `mkdir -p apps`, then `mkdir -p packages`. */
  lemma MonorepoSteps(v: Variant, c: Codec, seed: string -> string, templates: map<string, Tree>,
                      fs: Fs, dest: Path, existing: ExistingProject) returns (mid: Fs, apps: Fs, r: Fs)
    requires Valid(fs) && "monorepo" in templates
    requires Execute(v, c, seed, templates, fs, dest, MonorepoPlan(existing)).Ok?
    ensures Render(v, c, templates["monorepo"], fs, dest) == Ok(mid) && Valid(mid)
    ensures MkdirP(mid, dest + ["apps"]) == Ok(apps) && Valid(apps)
    ensures MkdirP(apps, dest + ["packages"]) == Ok(r)
    ensures Execute(v, c, seed, templates, fs, dest, MonorepoPlan(existing)) == Ok(r)
  {
    var rest := [MakeDir("apps"), MakeDir("packages")];
    MonorepoPlanParts(existing);
    mid := PeelStep(v, c, seed, templates, fs, dest, RenderTemplate("monorepo"), rest);
    RunRender(v, c, seed, templates, fs, dest, "monorepo", mid);
    apps := PeelStep(v, c, seed, templates, mid, dest, MakeDir("apps"), [MakeDir("packages")]);
    RunMakeDir(v, c, seed, templates, mid, dest, "apps", apps);
    r := PeelStep(v, c, seed, templates, apps, dest, MakeDir("packages"), []);
    RunMakeDir(v, c, seed, templates, apps, dest, "packages", r);
  }

  lemma MonorepoPlanParts(existing: ExistingProject)
    ensures MonorepoPlan(existing) == [RenderTemplate("monorepo")] + [MakeDir("apps"), MakeDir("packages")]
    ensures [MakeDir("apps"), MakeDir("packages")] == [MakeDir("apps")] + [MakeDir("packages")]
    ensures [MakeDir("packages")] == [MakeDir("packages")] + []
  {
  }

  lemma RunRender(v: Variant, c: Codec, seed: string -> string, templates: map<string, Tree>,
                  fs: Fs, dest: Path, name: string, next: Fs)
    requires Valid(fs) && RunStep(v, c, seed, templates, fs, dest, RenderTemplate(name)) == Ok(next)
    ensures name in templates && Render(v, c, templates[name], fs, dest) == Ok(next)
  {
  }

  lemma RunMakeDir(v: Variant, c: Codec, seed: string -> string, templates: map<string, Tree>,
                   fs: Fs, dest: Path, folder: string, next: Fs)
    requires Valid(fs) && RunStep(v, c, seed, templates, fs, dest, MakeDir(folder)) == Ok(next)
    ensures MkdirP(fs, dest + [folder]) == Ok(next)
  {
  }

  /** A successful run of `[s] + rest` is a successful step `s`, then a successful run of `rest`. */
  lemma PeelStep(v: Variant, c: Codec, seed: string -> string, templates: map<string, Tree>,
                 fs: Fs, dest: Path, s: Step, rest: seq<Step>) returns (next: Fs)
    requires Valid(fs) && Execute(v, c, seed, templates, fs, dest, [s] + rest).Ok?
    ensures RunStep(v, c, seed, templates, fs, dest, s) == Ok(next) && Valid(next)
    ensures Execute(v, c, seed, templates, next, dest, rest) == Execute(v, c, seed, templates, fs, dest, [s] + rest)
  {
    assert ([s] + rest)[0] == s && ([s] + rest)[1..] == rest;
    next := RunStep(v, c, seed, templates, fs, dest, s).value;
  }

  /**
    A monorepo run that succeeds leaves `apps` and `packages` as directories
    under `dest`; one of them that the template already made, or that existed
    before, keeps everything below it.
  */
  lemma MonorepoFolders(v: Variant, c: Codec, seed: string -> string, templates: map<string, Tree>,
                        fs: Fs, dest: Path, existing: ExistingProject)
    requires Valid(fs) && "monorepo" in templates
    requires Execute(v, c, seed, templates, fs, dest, MonorepoPlan(existing)).Ok?
    ensures var r := Execute(v, c, seed, templates, fs, dest, MonorepoPlan(existing)).value;
      IsDir(r, dest + ["apps"]) && IsDir(r, dest + ["packages"])
    ensures Render(v, c, templates["monorepo"], fs, dest).Ok?
    ensures var mid := Render(v, c, templates["monorepo"], fs, dest).value;
      var r := Execute(v, c, seed, templates, fs, dest, MonorepoPlan(existing)).value;
      && (IsDir(mid, dest + ["apps"]) ==> forall q :: IsPrefix(dest + ["apps"], q) ==> Untouched(mid, r, q))
      && (IsDir(mid, dest + ["packages"]) ==> forall q :: IsPrefix(dest + ["packages"], q) ==> Untouched(mid, r, q))
  {
    var mid, apps, r := MonorepoSteps(v, c, seed, templates, fs, dest, existing);
    TwoFolders(mid, apps, r, dest);
  }

  /** `mkdir -p dest/apps` then `mkdir -p dest/packages`: both exist, and one that existed keeps its contents. */
  lemma TwoFolders(mid: Fs, apps: Fs, r: Fs, dest: Path)
    requires Valid(mid) && MkdirP(mid, dest + ["apps"]) == Ok(apps)
    requires Valid(apps) && MkdirP(apps, dest + ["packages"]) == Ok(r)
    ensures IsDir(r, dest + ["apps"]) && IsDir(r, dest + ["packages"])
    ensures IsDir(mid, dest + ["apps"]) ==> forall q :: IsPrefix(dest + ["apps"], q) ==> Untouched(mid, r, q)
    ensures IsDir(mid, dest + ["packages"]) ==> forall q :: IsPrefix(dest + ["packages"], q) ==> Untouched(mid, r, q)
  {
    forall q | IsPrefix(dest + ["apps"], q)
      ensures Untouched(apps, r, q)
    {
      assert q[|dest|] == "apps";
      assert !IsPrefix(q, dest + ["packages"]);
    }
    if IsDir(mid, dest + ["packages"]) {
      forall q | IsPrefix(dest + ["packages"], q)
        ensures Untouched(mid, apps, q)
      {
        assert q[|dest|] == "packages";
        assert !IsPrefix(q, dest + ["apps"]);
      }
      assert IsDir(apps, dest + ["packages"]);
    }
  }

  /**
    The seed step of a current app or lib run writes the seed object's text
    to `dest/package.json` before any template is rendered.
  */
  lemma SeedWrittenFirst(v: Variant, c: Codec, templates: map<string, Tree>,
                         fs: Fs, dest: Path, kind: string, packageName: string, existing: ExistingProject)
    requires Valid(fs) && existing != Inject
    requires IsDir(fs, dest) && !IsDir(fs, dest + ["package.json"])
    ensures var plan := ProjectPlan(kind, Some(packageName), existing);
      var seed := (n: string) => CurrentSeedText(c, n);
      var first := RunStep(v, c, seed, templates, fs, dest, plan[0]);
      && plan[0] == SeedManifest(packageName)
      && first.Ok?
      && first.value[dest + ["package.json"]] == File(c.stringify(SeedObject(packageName)))
      && Execute(v, c, seed, templates, fs, dest, plan) == Execute(v, c, seed, templates, first.value, dest, plan[1..])
  {
    var plan := ProjectPlan(kind, Some(packageName), existing);
    var seed := (n: string) => CurrentSeedText(c, n);
    assert plan[0] == SeedManifest(packageName);
    ExecuteAppend(v, c, seed, templates, fs, dest, [plan[0]], plan[1..]);
    assert [plan[0]] + plan[1..] == plan;
    assert [plan[0]][1..] == [];
  }
}
