/**
  `renderTemplate(src, dest)`: copies a template directory into the
  destination file system. `node_modules` directories are skipped, a
  `package.json` landing on an existing one is merged and re-sorted, a file
  named `_x` lands as `.x`, a `_gitignore` landing on an existing
  `.gitignore` is appended, and every other file is copied over its target.

  The current engine (lib/renderers/template.ts) sorts the merged manifest
  with `sortProperties`, the legacy one (lib/render-template.ts) with
  `sortDependencies`; they are otherwise identical and are one function here.
*/
module TemplateRender {
  import opened Wrappers
  import opened Strings
  import opened AssocList
  import opened Json
  import opened ManifestSort
  import opened Files

  /** A template as `statSync`/`readdirSync` see it: names are base names, children in listing order. */
  datatype Tree =
    | SrcFile(name: string, content: string)
    | SrcDir(name: string, children: seq<Tree>)

  /**
    `JSON.parse` (`None` when it throws), `JSON.stringify(_, null, 2)` and
    `deepMerge`, whose code is not part of this model.
  */
  datatype Codec = Codec(parse: string -> Option<Json>, stringify: Json -> string, deepMerge: (Json, Json) -> Json)

  /** `Current` sorts a merged manifest with `sortProperties`, `Legacy` with `sortDependencies`. */
  datatype Variant = Current | Legacy

  datatype RenderError =
    | FsFailure(error: FsError)
    | ParseFailure(path: Path)
    | NullManifest(path: Path)

  /**
    The manifest sorter of each variant, applied to whatever `deepMerge`
    returned. On `null`, reading `packageJson[prop]` throws a TypeError
    (`None`). Any other value is spread into a fresh object: an object keeps
    its fields, an array or a string becomes its index-keyed entries, and a
    number or a boolean becomes `{}`.
  */
  function SortManifest(v: Variant, m: Json): (r: Option<Json>)
    ensures r.None? <==> m.Null?
    ensures r.Some? ==> r.value.Obj?
  {
    if m.Null? then None
    else match v
      case Current => Some(Obj(SortProperties(OwnEntries(m))))
      case Legacy => Some(Obj(SortDependencies(OwnEntries(m))))
  }

  function Lift<T>(r: Result<T, FsError>): (l: Result<T, RenderError>)
    ensures l.Ok? <==> r.Ok?
    ensures r.Ok? ==> l.value == r.value
  {
    match r
    case Ok(x) => Ok(x)
    case Err(e) => Err(FsFailure(e))
  }

  function Parsed(c: Codec, text: string, at: Path): Result<Json, RenderError> {
    match c.parse(text)
    case Some(j) => Ok(j)
    case None => Err(ParseFailure(at))
  }

  /** `filename.replace(/^_/, '.')`: only a leading underscore is replaced. */
  function DotName(name: string): (r: string)
    ensures |r| == |name|
    ensures StartsWith(name, "_") ==> r[0] == '.' && r[1..] == name[1..]
    ensures !StartsWith(name, "_") ==> r == name
  {
    if StartsWith(name, "_") then "." + name[1..] else name
  }

  /**
    Where a source node lands when rendered at `dest`, as
    `resolve(dirname(dest), filename.replace(/^_/, '.'))` places a file
    named `_x`: in the directory of `dest`, under the name `.x`. The names
    `_` and `_.` become `.` and `..`, which `resolve` turns into the
    directory of `dest` and the one above it.
  */
  function Target(t: Tree, dest: Path): (p: Path)
    ensures t.SrcDir? ==> p == dest
    ensures t.SrcFile? && dest != [] && Name(dest) == t.name && !DotDir(t.name) ==>
              p != [] && Parent(p) == Parent(dest) && Name(p) == DotName(t.name)
    ensures t.SrcFile? && DotDir(t.name) ==> IsPrefix(p, Parent(dest))
  {
    if t.SrcFile? && StartsWith(t.name, "_") then
      var n := DotName(t.name);
      if n == "." then Parent(dest)
      else if n == ".." then Parent(Parent(dest))
      else Parent(dest) + [n]
    else dest
  }

  /** The two file names whose renamed form is a relative directory reference. */
  predicate DotDir(name: string) {
    name == "_" || name == "_."
  }

  /** One of the two paths is an ancestor-or-self of the other. */
  predicate Related(q: Path, p: Path) {
    IsPrefix(q, p) || IsPrefix(p, q)
  }

  // ---------------------------------------------------------------------
  // The engine.

  /**
    `renderTemplate(src, dest)` for the source node `t`. Only ancestors of
    the node's target and paths below it change; when the target's parent
    already is a directory, nothing outside that parent changes. A rendered
    directory exists at `dest` afterwards under its own name, and a rendered
    file sits at its target.
  */
  function Render(v: Variant, c: Codec, t: Tree, fs: Fs, dest: Path): (r: Result<Fs, RenderError>)
    requires Valid(fs)
    ensures r.Ok? ==> Valid(r.value) && KindsKept(fs, r.value)
    ensures r.Ok? ==> forall q :: !Related(q, Target(t, dest)) ==> Untouched(fs, r.value, q)
    ensures r.Ok? && IsDir(fs, Parent(Target(t, dest))) ==>
              forall q :: !IsPrefix(Parent(Target(t, dest)), q) ==> Untouched(fs, r.value, q)
    ensures t.SrcDir? && t.name == "node_modules" ==> r == Ok(fs)
    ensures t.SrcDir? && t.name != "node_modules" && r.Ok? ==> IsDir(r.value, dest)
    ensures t.SrcFile? && r.Ok? ==> IsFile(r.value, Target(t, dest))
    decreases t, 1
  {
    match t
    case SrcDir(name, kids) =>
      if name == "node_modules" then Ok(fs)
      else
        var made := MkdirP(fs, dest);
        if made.Err? then Err(FsFailure(made.error))
        else
          var r := RenderChildren(v, c, kids, made.value, dest);
          if r.Ok? then
            DirFrame(fs, made.value, r.value, dest);
            r
          else
            r
    case SrcFile(name, content) =>
      var r := RenderFile(v, c, name, content, fs, dest);
      if r.Ok? then
        FileFrame(fs, r.value, Target(t, dest));
        r
      else
        r
  }

  /** The loop over `readdirSync(src)`: each child is rendered at the same-named path below `dest`. */
  function RenderChildren(v: Variant, c: Codec, kids: seq<Tree>, fs: Fs, dest: Path): (r: Result<Fs, RenderError>)
    requires Valid(fs) && IsDir(fs, dest)
    ensures r.Ok? ==> Valid(r.value) && KindsKept(fs, r.value)
    ensures r.Ok? ==> forall q :: !IsStrictPrefix(dest, q) && q != dest ==> Untouched(fs, r.value, q)
    ensures r.Ok? ==> forall i :: 0 <= i < |kids| && kids[i].SrcDir? && kids[i].name != "node_modules" ==>
              IsDir(r.value, dest + [kids[i].name])
    ensures r.Ok? ==> forall i :: 0 <= i < |kids| && kids[i].SrcFile? ==>
              IsFile(r.value, Target(kids[i], dest + [kids[i].name]))
    decreases kids, 0
  {
    if kids == [] then Ok(fs)
    else
      var child := dest + [kids[0].name];
      ChildTarget(kids[0], dest);
      if kids[0].SrcFile? && DotDir(kids[0].name) then
        // `.` or `..` from here is `dest` or its parent, a directory: `copyFileSync` throws.
        AncestorIsDir(fs, dest, Target(kids[0], child));
        Render(v, c, kids[0], fs, child)
      else
        var first := Render(v, c, kids[0], fs, child);
        if first.Err? then first
        else
          var rest := RenderChildren(v, c, kids[1..], first.value, dest);
          if rest.Ok? then
            ChildrenStep(kids, dest, fs, first.value, rest.value);
            rest
          else
            rest
  }

  /**
    A source file rendered at `dest`: the `package.json` merge, the
    `_gitignore` append, or a copy to the (possibly renamed) target.
  */
  function RenderFile(v: Variant, c: Codec, name: string, content: string, fs: Fs, dest: Path): (r: Result<Fs, RenderError>)
    requires Valid(fs)
    ensures r.Ok? ==> Valid(r.value) && KindsKept(fs, r.value)
    ensures r.Ok? ==> IsFile(r.value, Target(SrcFile(name, content), dest))
    ensures r.Ok? ==> forall q :: q != Target(SrcFile(name, content), dest) && q != Parent(Target(SrcFile(name, content), dest)) ==>
              Untouched(fs, r.value, q)
  {
    if name == "package.json" && dest in fs then
      assert !StartsWith(name, "_") by {
        assert name[..1] == "p";
      }
      var existingText :- Lift(ReadFile(fs, dest));
      var existing :- Parsed(c, existingText, dest);
      var incoming :- Parsed(c, content, dest);
      var sorted := SortManifest(v, c.deepMerge(existing, incoming));
      if sorted.None? then Err(NullManifest(dest))
      else Lift(WriteFile(fs, dest, c.stringify(sorted.value) + "\n"))
    else
      var target := Target(SrcFile(name, content), dest);
      if name == "_gitignore" && target in fs then
        var existing :- Lift(ReadFile(fs, target));
        Lift(WriteFile(fs, target, existing + "\n" + content))
      else
        Lift(WriteFile(fs, target, content))
  }

  // ---------------------------------------------------------------------
  // Proof steps of the engine's contracts.

  lemma ChildTarget(t: Tree, dest: Path)
    ensures Parent(dest + [t.name]) == dest
    ensures t.SrcFile? && DotDir(t.name) ==> IsPrefix(Target(t, dest + [t.name]), dest)
    ensures !(t.SrcFile? && DotDir(t.name)) ==>
              Parent(Target(t, dest + [t.name])) == dest && IsStrictPrefix(dest, Target(t, dest + [t.name]))
  {
    var child := dest + [t.name];
    assert child[..|dest|] == dest;
    SplitLast(child);
    var p := Target(t, child);
    if !(t.SrcFile? && DotDir(t.name)) && t.SrcFile? {
      assert p[..|dest|] == dest;
    }
  }

  /** Every ancestor-or-self of an existing directory is a directory. */
  lemma AncestorIsDir(fs: Fs, dest: Path, p: Path)
    requires Valid(fs) && IsDir(fs, dest) && IsPrefix(p, dest)
    ensures IsDir(fs, p)
  {
    if p != dest {
      AncestorsExist(fs, dest, p);
    }
  }

  /** The file case: writing `target` changes only it and its parent's listing. */
  lemma FileFrame(fs: Fs, r: Fs, target: Path)
    requires forall q :: q != target && q != Parent(target) ==> Untouched(fs, r, q)
    ensures forall q :: !Related(q, target) ==> Untouched(fs, r, q)
    ensures forall q :: !IsPrefix(Parent(target), q) ==> Untouched(fs, r, q)
  {
    assert IsPrefix(Parent(target), target);
    forall q | !Related(q, target)
      ensures Untouched(fs, r, q)
    {
      assert q != target && q != Parent(target);
    }
    forall q | !IsPrefix(Parent(target), q)
      ensures Untouched(fs, r, q)
    {
      assert q != target && q != Parent(target);
    }
  }

  /** The directory case: `mkdir -p` and the children together keep to the frame. */
  lemma DirFrame(fs: Fs, made: Fs, r: Fs, dest: Path)
    requires Valid(fs) && Valid(made)
    requires forall q :: !IsPrefix(q, dest) ==> Untouched(fs, made, q)
    requires forall q :: IsStrictPrefix(q, dest) && dest[..|q| + 1] in fs ==> Untouched(fs, made, q)
    requires forall q :: !IsStrictPrefix(dest, q) && q != dest ==> Untouched(made, r, q)
    ensures forall q :: !Related(q, dest) ==> Untouched(fs, r, q)
    ensures IsDir(fs, Parent(dest)) ==> forall q :: !IsPrefix(Parent(dest), q) ==> Untouched(fs, r, q)
  {
    forall q | !Related(q, dest)
      ensures Untouched(fs, r, q)
    {
      assert Untouched(fs, made, q);
      assert Untouched(made, r, q);
    }
    if IsDir(fs, Parent(dest)) {
      forall q | !IsPrefix(Parent(dest), q)
        ensures Untouched(fs, r, q)
      {
        DirFrameAt(fs, made, r, dest, q);
      }
    }
  }

  /** A path outside the existing parent of `dest`: neither `mkdir -p` nor the children touch it. */
  lemma DirFrameAt(fs: Fs, made: Fs, r: Fs, dest: Path, q: Path)
    requires Valid(fs) && IsDir(fs, Parent(dest)) && !IsPrefix(Parent(dest), q)
    requires !IsPrefix(q, dest) ==> Untouched(fs, made, q)
    requires IsStrictPrefix(q, dest) && dest[..|q| + 1] in fs ==> Untouched(fs, made, q)
    requires !IsStrictPrefix(dest, q) && q != dest ==> Untouched(made, r, q)
    ensures Untouched(fs, r, q)
  {
    assert dest != [];
    assert !IsStrictPrefix(dest, q) && q != dest;
    if IsPrefix(q, dest) {
      assert |q| < |Parent(dest)|;
      var next := dest[..|q| + 1];
      assert IsPrefix(next, Parent(dest));
      if next != Parent(dest) {
        AncestorsExist(fs, Parent(dest), next);
      }
    }
  }

  /** The loop step: the first child's render and the rest's together. */
  lemma ChildrenStep(kids: seq<Tree>, dest: Path, fs: Fs, mid: Fs, r: Fs)
    requires kids != [] && Valid(fs) && IsDir(fs, dest)
    requires KindsKept(fs, mid) && KindsKept(mid, r)
    requires forall q :: !IsPrefix(dest, q) ==> Untouched(fs, mid, q)
    requires forall q :: !IsStrictPrefix(dest, q) && q != dest ==> Untouched(mid, r, q)
    requires kids[0].SrcDir? && kids[0].name != "node_modules" ==> IsDir(mid, dest + [kids[0].name])
    requires kids[0].SrcFile? ==> IsFile(mid, Target(kids[0], dest + [kids[0].name]))
    requires forall i :: 0 <= i < |kids[1..]| && kids[1..][i].SrcDir? && kids[1..][i].name != "node_modules" ==>
               IsDir(r, dest + [kids[1..][i].name])
    requires forall i :: 0 <= i < |kids[1..]| && kids[1..][i].SrcFile? ==>
               IsFile(r, Target(kids[1..][i], dest + [kids[1..][i].name]))
    ensures KindsKept(fs, r)
    ensures forall q :: !IsStrictPrefix(dest, q) && q != dest ==> Untouched(fs, r, q)
    ensures forall i :: 0 <= i < |kids| && kids[i].SrcDir? && kids[i].name != "node_modules" ==>
              IsDir(r, dest + [kids[i].name])
    ensures forall i :: 0 <= i < |kids| && kids[i].SrcFile? ==>
              IsFile(r, Target(kids[i], dest + [kids[i].name]))
  {
    ChildrenFrame(dest, fs, mid, r);
    var first := dest + [kids[0].name];
    if kids[0].SrcDir? && kids[0].name != "node_modules" {
      assert first in mid;
    }
    if kids[0].SrcFile? {
      assert Target(kids[0], first) in mid;
    }
    ChildrenDirs(kids, dest, r);
    ChildrenFiles(kids, dest, r);
  }

  lemma ChildrenFrame(dest: Path, fs: Fs, mid: Fs, r: Fs)
    requires forall q :: !IsPrefix(dest, q) ==> Untouched(fs, mid, q)
    requires forall q :: !IsStrictPrefix(dest, q) && q != dest ==> Untouched(mid, r, q)
    ensures forall q :: !IsStrictPrefix(dest, q) && q != dest ==> Untouched(fs, r, q)
  {
    forall q | !IsStrictPrefix(dest, q) && q != dest
      ensures Untouched(fs, r, q)
    {
      assert !IsPrefix(dest, q);
      assert Untouched(fs, mid, q);
    }
  }

  lemma ChildrenDirs(kids: seq<Tree>, dest: Path, r: Fs)
    requires kids != []
    requires kids[0].SrcDir? && kids[0].name != "node_modules" ==> IsDir(r, dest + [kids[0].name])
    requires forall i :: 0 <= i < |kids[1..]| && kids[1..][i].SrcDir? && kids[1..][i].name != "node_modules" ==>
               IsDir(r, dest + [kids[1..][i].name])
    ensures forall i :: 0 <= i < |kids| && kids[i].SrcDir? && kids[i].name != "node_modules" ==>
              IsDir(r, dest + [kids[i].name])
  {
    forall i | 0 <= i < |kids| && kids[i].SrcDir? && kids[i].name != "node_modules"
      ensures IsDir(r, dest + [kids[i].name])
    {
      if i > 0 {
        assert kids[1..][i - 1] == kids[i];
      }
    }
  }

  lemma ChildrenFiles(kids: seq<Tree>, dest: Path, r: Fs)
    requires kids != []
    requires kids[0].SrcFile? ==> IsFile(r, Target(kids[0], dest + [kids[0].name]))
    requires forall i :: 0 <= i < |kids[1..]| && kids[1..][i].SrcFile? ==>
               IsFile(r, Target(kids[1..][i], dest + [kids[1..][i].name]))
    ensures forall i :: 0 <= i < |kids| && kids[i].SrcFile? ==>
              IsFile(r, Target(kids[i], dest + [kids[i].name]))
  {
    forall i | 0 <= i < |kids| && kids[i].SrcFile?
      ensures IsFile(r, Target(kids[i], dest + [kids[i].name]))
    {
      if i > 0 {
        assert kids[1..][i - 1] == kids[i];
      }
    }
  }

  // ---------------------------------------------------------------------
  // What each kind of source file does.

  /**
    A `package.json` landing on an existing manifest: when the deep merge of
    the existing and the incoming manifest is `null`, the sorter's TypeError
    aborts the render; otherwise the destination becomes the serialised,
    re-sorted merge followed by a newline, and nothing else changes.
  */
  lemma MergeExistingManifest(v: Variant, c: Codec, content: string, fs: Fs, dest: Path)
    requires Valid(fs) && IsFile(fs, dest)
    requires c.parse(fs[dest].content).Some? && c.parse(content).Some?
    ensures var merged := c.deepMerge(c.parse(fs[dest].content).value, c.parse(content).value);
            var r := Render(v, c, SrcFile("package.json", content), fs, dest);
            && (merged.Null? ==> r == Err(NullManifest(dest)))
            && (!merged.Null? ==>
                  && r.Ok? && dest in r.value
                  && r.value[dest] == File(c.stringify(SortManifest(v, merged).value) + "\n")
                  && (forall q :: q != dest ==> Untouched(fs, r.value, q)))
  {
    var merged := c.deepMerge(c.parse(fs[dest].content).value, c.parse(content).value);
    if !merged.Null? {
      var text := c.stringify(SortManifest(v, merged).value) + "\n";
      assert dest != [] && IsDir(fs, Parent(dest));
      var w := WriteFile(fs, dest, text);
      assert w.Ok?;
      assert RenderFile(v, c, "package.json", content, fs, dest) == Ok(w.value);
      assert Render(v, c, SrcFile("package.json", content), fs, dest) == Ok(w.value);
      assert w.value[dest] == File(text);
      assert forall q :: q != dest ==> Untouched(fs, w.value, q);
    }
  }

  /**
    A merge result that is neither an object nor `null` is written as the
    object its spread gives: the sorted groups are looked up among index
    keys and never found, so the entries are `Object.keys` order as is.
  */
  lemma NonObjectMergeSpread(v: Variant, m: Json)
    requires WellFormed(m) && !m.Null? && !m.Obj?
    ensures SortManifest(v, m) == Some(Obj(OwnEntries(m)))
  {
    var es := OwnEntries(m);
    OwnEntriesUnique(m);
    forall i | 0 <= i < |es|
      ensures es[i].0 !in PropertyGroups && es[i].0 !in DependencyGroups
    {
      IndexKeyIsNoGroup(es[i].0);
    }
    match v
    case Current => NoGroupUnchanged(PropertyGroups, es);
    case Legacy => NoGroupUnchanged(DependencyGroups, es);
  }

  /** Rebuilding groups that the object does not have gives the object back. */
  lemma NoGroupUnchanged(groups: seq<string>, pkg: Entries<Json>)
    requires UniqueKeys(pkg) && forall i :: 0 <= i < |pkg| ==> pkg[i].0 !in groups
    ensures SortGroups(groups, pkg) == pkg
  {
    var r := SortGroups(groups, pkg);
    assert |r| == |pkg|;
    forall i | 0 <= i < |pkg|
      ensures r[i] == pkg[i]
    {
    }
  }

  /** `Object.keys` of a well-formed value, with its values, is a well-formed object. */
  lemma OwnEntriesWellFormed(m: Json)
    requires WellFormed(m)
    ensures WellFormed(Obj(OwnEntries(m)))
  {
    OwnEntriesUnique(m);
  }

  /** A key made of decimal digits names none of the sorted groups. */
  lemma IndexKeyIsNoGroup(k: string)
    requires |k| > 0 && forall i :: 0 <= i < |k| ==> IsAsciiDigit(k[i])
    ensures k !in PropertyGroups && k !in DependencyGroups
  {
    assert IsAsciiDigit(k[0]);
    forall g | g in PropertyGroups
      ensures g != k
    {
      assert !IsAsciiDigit(g[0]);
    }
  }

  /** A manifest that `JSON.parse` rejects, on either side, aborts the render. */
  lemma MergeParseFailure(v: Variant, c: Codec, content: string, fs: Fs, dest: Path)
    requires Valid(fs) && IsFile(fs, dest)
    requires c.parse(fs[dest].content).None? || c.parse(content).None?
    ensures Render(v, c, SrcFile("package.json", content), fs, dest) == Err(ParseFailure(dest))
  {
  }

  /**
    A `package.json` with nothing at its destination is copied verbatim:
    neither sorted nor given a trailing newline.
  */
  lemma FreshManifestCopied(v: Variant, c: Codec, content: string, fs: Fs, dest: Path)
    requires Valid(fs) && dest !in fs
    ensures var r := Render(v, c, SrcFile("package.json", content), fs, dest);
            && (r.Ok? <==> dest != [] && IsDir(fs, Parent(dest)))
            && (r.Ok? ==> dest in r.value && r.value[dest] == File(content))
  {
    assert !StartsWith("package.json", "_") by {
      assert "package.json"[..1] == "p";
    }
  }

  /**
    A file named `_x` lands in the same directory as `.x`; the underscored
    destination itself is left as it was.
  */
  lemma UnderscoreRenamed(v: Variant, c: Codec, name: string, content: string, fs: Fs, dest: Path)
    requires Valid(fs) && StartsWith(name, "_") && !DotDir(name) && dest != [] && Name(dest) == name
    ensures Target(SrcFile(name, content), dest) == Parent(dest) + ["." + name[1..]]
    ensures var r := Render(v, c, SrcFile(name, content), fs, dest);
            r.Ok? ==> IsFile(r.value, Parent(dest) + ["." + name[1..]]) && Untouched(fs, r.value, dest)
  {
    UnderscoreTarget(name, content, dest);
  }

  lemma UnderscoreTarget(name: string, content: string, dest: Path)
    requires StartsWith(name, "_") && !DotDir(name) && dest != [] && Name(dest) == name
    ensures Target(SrcFile(name, content), dest) == Parent(dest) + ["." + name[1..]]
    ensures !Related(dest, Target(SrcFile(name, content), dest))
  {
    var target := Parent(dest) + [DotName(name)];
    assert DotName(name) != "." && DotName(name) != ".." by {
      assert DotName(name)[1..] == name[1..];
      assert |name| == 1 ==> name == "_";
      assert |name| == 2 ==> name == ['_', name[1]];
    }
    SplitLast(dest);
    assert target[|target| - 1] == DotName(name);
    assert target[|target| - 1][0] == '.' && dest[|dest| - 1][0] == '_';
    assert |target| == |dest| && target != dest;
  }

  /**
    A file named `_` or `_.` resolves to the directory holding its
    destination, or to the one above it; when the destination's parent
    exists, that is a directory and `copyFileSync` fails with EISDIR.
  */
  lemma DotDirRefused(v: Variant, c: Codec, name: string, content: string, fs: Fs, dest: Path)
    requires Valid(fs) && DotDir(name) && IsDir(fs, Parent(dest))
    ensures Target(SrcFile(name, content), dest) == if name == "_" then Parent(dest) else Parent(Parent(dest))
    ensures Render(v, c, SrcFile(name, content), fs, dest) == Err(FsFailure(IsADirectory(Target(SrcFile(name, content), dest))))
  {
    var target := Target(SrcFile(name, content), dest);
    assert name[..1] == "_";
    assert name == "_" ==> DotName(name) == ".";
    assert name == "_." ==> DotName(name) == ".." && name != "_gitignore";
    AncestorIsDir(fs, Parent(dest), target);
  }

  lemma GitignoreName()
    ensures StartsWith("_gitignore", "_") && DotName("_gitignore") == ".gitignore"
  {
    assert "_gitignore"[..1] == "_";
    assert "_gitignore"[1..] == "gitignore";
  }

  /** `_gitignore` over an existing `.gitignore`: the old content, a newline, then the template's. */
  lemma GitignoreAppended(v: Variant, c: Codec, content: string, fs: Fs, dest: Path)
    requires Valid(fs) && dest != []
    requires IsFile(fs, Parent(dest) + [".gitignore"])
    ensures var target := Parent(dest) + [".gitignore"];
            var r := Render(v, c, SrcFile("_gitignore", content), fs, dest);
            && r.Ok? && target in r.value
            && r.value[target] == File(fs[target].content + "\n" + content)
  {
    var t := SrcFile("_gitignore", content);
    var target := Parent(dest) + [".gitignore"];
    GitignoreName();
    assert Target(t, dest) == target;
    assert |"_gitignore"| != |"package.json"|;
    assert target[..|target| - 1] == Parent(dest);
    assert IsDir(fs, Parent(target));
    var text := fs[target].content + "\n" + content;
    assert ReadFile(fs, target) == Ok(fs[target].content);
    var w := WriteFile(fs, target, text);
    assert w.Ok?;
    assert RenderFile(v, c, "_gitignore", content, fs, dest) == Ok(w.value);
  }

  /**
    Every other file, including a `_gitignore` with nothing at its target,
    overwrites its target with a verbatim copy; this fails exactly when the
    target's parent is not a directory or the target is one.
  */
  lemma PlainCopy(v: Variant, c: Codec, name: string, content: string, fs: Fs, dest: Path)
    requires Valid(fs)
    requires !(name == "package.json" && dest in fs)
    requires !(name == "_gitignore" && Target(SrcFile(name, content), dest) in fs)
    ensures var target := Target(SrcFile(name, content), dest);
            var r := Render(v, c, SrcFile(name, content), fs, dest);
            && (r.Ok? <==> target != [] && IsDir(fs, Parent(target)) && !IsDir(fs, target))
            && (r.Ok? ==> target in r.value && r.value[target] == File(content))
  {
  }

  /**
    The two variants differ on `scripts` only: the current engine rebuilds a
    truthy `scripts` object with sorted keys, the legacy one keeps it as the
    merge produced it.
  */
  lemma ScriptsByVariant(m: Json, i: int)
    requires m.Obj? && WellFormed(m) && 0 <= i < |m.fields| && m.fields[i].0 == "scripts"
    ensures SortManifest(Legacy, m).value.fields[i] == m.fields[i]
    ensures Truthy(m.fields[i].1) ==> SortedCopy(m.fields[i].1, SortManifest(Current, m).value.fields[i].1)
    ensures Keys(SortManifest(Current, m).value.fields) == Keys(m.fields) == Keys(SortManifest(Legacy, m).value.fields)
  {
    assert "scripts" in PropertyGroups;
  }

  /** The manifest the merge writes is already sorted: sorting it again changes nothing. */
  lemma SortManifestIdempotent(v: Variant, m: Json)
    requires WellFormed(m)
    ensures SortManifest(v, m).Some? ==> SortManifest(v, SortManifest(v, m).value) == SortManifest(v, m)
  {
    if !m.Null? {
      OwnEntriesWellFormed(m);
      match v
      case Current => SortPropertiesIdempotent(OwnEntries(m));
      case Legacy => SortDependenciesIdempotent(OwnEntries(m));
    }
  }
}
