/**
  The destination file system, as the synchronous `node:fs` calls of the
  template engine see it: a map from absolute paths (lists of path
  components, the root being `[]`) to nodes. A directory node keeps its
  listing in `readdirSync` order; `Valid` ties the listings to the map so
  that the map is a tree.
*/
module Files {
  import opened Wrappers
  import opened Strings

  type Path = seq<string>

  datatype Node =
    | Dir(entries: seq<string>)
    | File(content: string)
    | Link(target: string)

  type Fs = map<Path, Node>

  /** The `errno` of a failed call, with the path it concerns. */
  datatype FsError =
    | NoEntry(path: Path)
    | NotADirectory(path: Path)
    | IsADirectory(path: Path)
    | AlreadyExists(path: Path)
    | NotEmpty(path: Path)
    | Busy(path: Path)
    | IsALink(path: Path)

  /** `path.dirname`; the root is its own parent. */
  function Parent(p: Path): Path {
    if p == [] then [] else p[..|p| - 1]
  }

  /** `path.basename`. */
  function Name(p: Path): string
    requires p != []
  {
    p[|p| - 1]
  }

  predicate IsPrefix(q: Path, p: Path) {
    |q| <= |p| && p[..|q|] == q
  }

  /** `p` lies strictly below `q`. */
  predicate IsStrictPrefix(q: Path, p: Path) {
    |q| < |p| && p[..|q|] == q
  }

  predicate IsDir(fs: Fs, p: Path) {
    p in fs && fs[p].Dir?
  }

  predicate IsFile(fs: Fs, p: Path) {
    p in fs && fs[p].File?
  }

  /**
    The map is a tree rooted at `[]`: every other path is listed by its
    parent directory, every listed name exists, and no listing repeats a name.
  */
  predicate Valid(fs: Fs) {
    IsDir(fs, []) && ParentsList(fs) && ListingsExist(fs) && ListingsDistinct(fs)
  }

  predicate ParentsList(fs: Fs) {
    forall p {:trigger Parent(p)} :: p in fs && p != [] ==> IsDir(fs, Parent(p)) && Name(p) in fs[Parent(p)].entries
  }

  predicate ListingsExist(fs: Fs) {
    forall p, n :: p in fs && fs[p].Dir? && n in fs[p].entries ==> p + [n] in fs
  }

  predicate ListingsDistinct(fs: Fs) {
    forall p :: p in fs && fs[p].Dir? ==> Distinct(fs[p].entries)
  }

  /** `q` has the same node, or the same absence, in both systems. */
  predicate Untouched(fs: Fs, fs': Fs, q: Path) {
    (q in fs <==> q in fs') && (q in fs ==> fs'[q] == fs[q])
  }

  /** Nothing disappears, directories stay directories, files stay files. */
  predicate KindsKept(fs: Fs, fs': Fs) {
    forall q :: q in fs ==> q in fs' && (fs[q].Dir? <==> fs'[q].Dir?) && (fs[q].File? ==> fs'[q].File?)
  }

  lemma KindsKeptTransitive(a: Fs, b: Fs, c: Fs)
    requires KindsKept(a, b) && KindsKept(b, c)
    ensures KindsKept(a, c)
  {
  }

  lemma SplitLast(p: Path)
    requires p != []
    ensures p == Parent(p) + [Name(p)]
    ensures |Parent(p)| == |p| - 1
  {
  }

  /** `xs` without `x`, order kept: a listing after an entry is removed. */
  function Without(xs: seq<string>, x: string): (r: seq<string>)
    ensures forall y :: y in r <==> y in xs && y != x
    ensures Distinct(xs) ==> Distinct(r)
    ensures x !in xs ==> r == xs
  {
    if xs == [] then []
    else if xs[0] == x then Without(xs[1..], x)
    else
      var rest := Without(xs[1..], x);
      if Distinct(xs) then
        DistinctCons(xs[0], rest);
        [xs[0]] + rest
      else
        [xs[0]] + rest
  }

  lemma DistinctCons(a: string, xs: seq<string>)
    requires a !in xs && Distinct(xs)
    ensures Distinct([a] + xs)
  {
  }

  lemma {:induction false} WithoutSplit(a: seq<string>, x: string, b: seq<string>)
    requires x !in a && x !in b
    ensures Without(a + [x] + b, x) == a + b
    decreases |a|
  {
    if a == [] {
      assert [x] + b == a + [x] + b;
      assert ([x] + b)[1..] == b;
    } else {
      assert (a + [x] + b)[1..] == a[1..] + [x] + b;
      WithoutSplit(a[1..], x, b);
      assert a == [a[0]] + a[1..];
    }
  }

  // ---------------------------------------------------------------------
  // Adding and removing one entry.

  /** A fresh entry `p` holding `node`, appended to its parent's listing. */
  function Attach(fs: Fs, p: Path, node: Node): (r: Fs)
    requires Valid(fs) && p != [] && IsDir(fs, Parent(p)) && p !in fs
    requires node.Dir? ==> node.entries == []
    ensures Valid(r) && p in r && Parent(p) in r
    ensures r[p] == node
    ensures r[Parent(p)] == Dir(fs[Parent(p)].entries + [Name(p)])
    ensures forall q :: q != p && q != Parent(p) ==> Untouched(fs, r, q)
    ensures KindsKept(fs, r)
  {
    var r := fs[Parent(p) := Dir(fs[Parent(p)].entries + [Name(p)])][p := node];
    AttachValid(fs, p, node, r);
    AttachFrame(fs, p, node, r);
    r
  }

  lemma AttachValid(fs: Fs, p: Path, node: Node, r: Fs)
    requires Valid(fs) && p != [] && IsDir(fs, Parent(p)) && p !in fs
    requires node.Dir? ==> node.entries == []
    requires r == fs[Parent(p) := Dir(fs[Parent(p)].entries + [Name(p)])][p := node]
    ensures Valid(r)
  {
    SplitLast(p);
    assert Name(p) !in fs[Parent(p)].entries;
    AttachParents(fs, p, node, r);
    AttachListings(fs, p, node, r);
    AttachDistinct(fs, p, node, r);
  }

  lemma AttachFrame(fs: Fs, p: Path, node: Node, r: Fs)
    requires p != [] && IsDir(fs, Parent(p)) && p !in fs
    requires r == fs[Parent(p) := Dir(fs[Parent(p)].entries + [Name(p)])][p := node]
    ensures forall q :: q != p && q != Parent(p) ==> Untouched(fs, r, q)
    ensures KindsKept(fs, r)
  {
  }

  lemma AttachParents(fs: Fs, p: Path, node: Node, r: Fs)
    requires ParentsList(fs) && p != [] && IsDir(fs, Parent(p)) && p !in fs
    requires r == fs[Parent(p) := Dir(fs[Parent(p)].entries + [Name(p)])][p := node]
    ensures ParentsList(r)
  {
    forall s | s in r && s != []
      ensures IsDir(r, Parent(s)) && Name(s) in r[Parent(s)].entries
    {
      if s != p {
        assert s in fs;
        assert Parent(s) != p;
      }
    }
  }

  lemma AttachListings(fs: Fs, p: Path, node: Node, r: Fs)
    requires ListingsExist(fs) && p != [] && IsDir(fs, Parent(p)) && p !in fs
    requires node.Dir? ==> node.entries == []
    requires r == fs[Parent(p) := Dir(fs[Parent(p)].entries + [Name(p)])][p := node]
    ensures ListingsExist(r)
  {
    SplitLast(p);
    forall s, n | s in r && r[s].Dir? && n in r[s].entries
      ensures s + [n] in r
    {
      if s == Parent(p) && n == Name(p) {
      } else if s != p {
        assert s in fs && n in fs[s].entries;
      }
    }
  }

  lemma AttachDistinct(fs: Fs, p: Path, node: Node, r: Fs)
    requires ListingsDistinct(fs) && p != [] && IsDir(fs, Parent(p)) && p !in fs
    requires Name(p) !in fs[Parent(p)].entries
    requires node.Dir? ==> node.entries == []
    requires r == fs[Parent(p) := Dir(fs[Parent(p)].entries + [Name(p)])][p := node]
    ensures ListingsDistinct(r)
  {
    forall s | s in r && r[s].Dir?
      ensures Distinct(r[s].entries)
    {
      if s != p && s != Parent(p) {
        assert s in fs;
      }
    }
  }

  /** `p` (a non-directory or an empty directory) removed, and struck from its parent's listing. */
  function Detach(fs: Fs, p: Path): (r: Fs)
    requires Valid(fs) && p in fs && p != []
    requires fs[p].Dir? ==> fs[p].entries == []
    ensures Valid(r)
    ensures p !in r && Parent(p) in r
    ensures r[Parent(p)] == Dir(Without(fs[Parent(p)].entries, Name(p)))
    ensures forall q :: q != p && q != Parent(p) ==> Untouched(fs, r, q)
  {
    var r := (fs - {p})[Parent(p) := Dir(Without(fs[Parent(p)].entries, Name(p)))];
    DetachValid(fs, p, r);
    DetachFrame(fs, p, r);
    r
  }

  lemma DetachValid(fs: Fs, p: Path, r: Fs)
    requires Valid(fs) && p in fs && p != []
    requires fs[p].Dir? ==> fs[p].entries == []
    requires r == (fs - {p})[Parent(p) := Dir(Without(fs[Parent(p)].entries, Name(p)))]
    ensures Valid(r)
  {
    SplitLast(p);
    DetachParents(fs, p, r);
    DetachListings(fs, p, r);
    DetachDistinct(fs, p, r);
  }

  lemma DetachFrame(fs: Fs, p: Path, r: Fs)
    requires p in fs && p != [] && IsDir(fs, Parent(p))
    requires r == (fs - {p})[Parent(p) := Dir(Without(fs[Parent(p)].entries, Name(p)))]
    ensures forall q :: q != p && q != Parent(p) ==> Untouched(fs, r, q)
  {
  }

  lemma DetachParents(fs: Fs, p: Path, r: Fs)
    requires ParentsList(fs) && p in fs && p != []
    requires fs[p].Dir? ==> fs[p].entries == []
    requires r == (fs - {p})[Parent(p) := Dir(Without(fs[Parent(p)].entries, Name(p)))]
    ensures ParentsList(r)
  {
    forall s | s in r && s != []
      ensures IsDir(r, Parent(s)) && Name(s) in r[Parent(s)].entries
    {
      assert s in fs;
      assert Name(s) in fs[Parent(s)].entries;
      assert Parent(s) != p by {
        assert fs[p].Dir? ==> Name(s) !in fs[p].entries;
      }
      if Parent(s) == Parent(p) {
        SplitLast(s);
        SplitLast(p);
      }
    }
  }

  lemma DetachListings(fs: Fs, p: Path, r: Fs)
    requires ListingsExist(fs) && p in fs && p != [] && IsDir(fs, Parent(p))
    requires r == (fs - {p})[Parent(p) := Dir(Without(fs[Parent(p)].entries, Name(p)))]
    ensures ListingsExist(r)
  {
    SplitLast(p);
    forall s, n | s in r && r[s].Dir? && n in r[s].entries
      ensures s + [n] in r
    {
      assert s in fs && n in fs[s].entries;
      assert s + [n] in fs;
      assert s + [n] != p by {
        assert s == Parent(p) ==> n != Name(p);
        assert (s + [n])[..|s|] == s && (s + [n])[|s|] == n;
      }
    }
  }

  lemma DetachDistinct(fs: Fs, p: Path, r: Fs)
    requires ListingsDistinct(fs) && p in fs && p != [] && IsDir(fs, Parent(p))
    requires r == (fs - {p})[Parent(p) := Dir(Without(fs[Parent(p)].entries, Name(p)))]
    ensures ListingsDistinct(r)
  {
    forall s | s in r && r[s].Dir?
      ensures Distinct(r[s].entries)
    {
      assert s in fs;
    }
  }

  /** An existing non-directory `p` replaced by a file holding `c`. */
  function Overwrite(fs: Fs, p: Path, c: string): (r: Fs)
    requires Valid(fs) && p in fs && !fs[p].Dir?
    ensures Valid(r) && p in r && r[p] == File(c)
    ensures forall q :: q != p ==> Untouched(fs, r, q)
    ensures KindsKept(fs, r)
  {
    var r := fs[p := File(c)];
    OverwriteParents(fs, p, c, r);
    OverwriteListings(fs, p, c, r);
    OverwriteDistinct(fs, p, c, r);
    OverwriteFrame(fs, p, c, r);
    r
  }

  lemma OverwriteFrame(fs: Fs, p: Path, c: string, r: Fs)
    requires p in fs && !fs[p].Dir? && r == fs[p := File(c)]
    ensures forall q :: q != p ==> Untouched(fs, r, q)
    ensures KindsKept(fs, r)
  {
  }

  lemma OverwriteParents(fs: Fs, p: Path, c: string, r: Fs)
    requires ParentsList(fs) && p in fs && !fs[p].Dir? && r == fs[p := File(c)]
    ensures ParentsList(r)
  {
    forall s | s in r && s != []
      ensures IsDir(r, Parent(s)) && Name(s) in r[Parent(s)].entries
    {
      assert IsDir(fs, Parent(s));
    }
  }

  lemma OverwriteListings(fs: Fs, p: Path, c: string, r: Fs)
    requires ListingsExist(fs) && p in fs && !fs[p].Dir? && r == fs[p := File(c)]
    ensures ListingsExist(r)
  {
    forall s, n | s in r && r[s].Dir? && n in r[s].entries
      ensures s + [n] in r
    {
      assert s in fs && n in fs[s].entries;
    }
  }

  lemma OverwriteDistinct(fs: Fs, p: Path, c: string, r: Fs)
    requires ListingsDistinct(fs) && p in fs && !fs[p].Dir? && r == fs[p := File(c)]
    ensures ListingsDistinct(r)
  {
    forall s | s in r && r[s].Dir?
      ensures Distinct(r[s].entries)
    {
      assert s in fs;
    }
  }

  // ---------------------------------------------------------------------
  // The calls the template engine and `emptyDir` make.

  /** `readFileSync(p, 'utf8')`. */
  function ReadFile(fs: Fs, p: Path): (r: Result<string, FsError>)
    ensures r.Ok? <==> IsFile(fs, p)
    ensures r.Ok? ==> r.value == fs[p].content
  {
    if p !in fs then Err(NoEntry(p))
    else match fs[p]
      case File(c) => Ok(c)
      case Dir(_) => Err(IsADirectory(p))
      case Link(_) => Err(IsALink(p))
  }

  /**
    `writeFileSync(p, c)` and `copyFileSync(src, p)` of a source holding `c`:
    creates or overwrites `p`; fails when the parent is missing or is not a
    directory, or when `p` is a directory.
  */
  function WriteFile(fs: Fs, p: Path, c: string): (r: Result<Fs, FsError>)
    requires Valid(fs)
    ensures r.Ok? <==> p != [] && IsDir(fs, Parent(p)) && !IsDir(fs, p)
    ensures r.Ok? ==> Valid(r.value) && p in r.value && r.value[p] == File(c) && KindsKept(fs, r.value)
    ensures r.Ok? ==> forall q :: q != p && q != Parent(p) ==> Untouched(fs, r.value, q)
    ensures r.Ok? && p in fs ==> forall q :: q != p ==> Untouched(fs, r.value, q)
  {
    if p == [] then Err(IsADirectory(p))
    else if Parent(p) !in fs then Err(NoEntry(Parent(p)))
    else if !fs[Parent(p)].Dir? then Err(NotADirectory(Parent(p)))
    else if p in fs && fs[p].Dir? then Err(IsADirectory(p))
    else if p in fs then Ok(Overwrite(fs, p, c))
    else Ok(Attach(fs, p, File(c)))
  }

  /** One `mkdir` step of `mkdirSync(p, { recursive: true })`, the parent already being a directory. */
  function MkdirOne(fs: Fs, p: Path): (r: Result<Fs, FsError>)
    requires Valid(fs) && p != [] && IsDir(fs, Parent(p))
    ensures r.Ok? <==> p !in fs || fs[p].Dir?
    ensures r.Ok? ==> Valid(r.value) && IsDir(r.value, p) && KindsKept(fs, r.value)
    ensures r.Ok? ==> forall q :: q != p && q != Parent(p) ==> Untouched(fs, r.value, q)
    ensures p in fs && r.Ok? ==> r.value == fs
  {
    if p in fs then
      if fs[p].Dir? then Ok(fs) else Err(AlreadyExists(p))
    else Ok(Attach(fs, p, Dir([])))
  }

  /** Every existing ancestor-or-self of `p` is a directory. */
  predicate AllDirs(fs: Fs, p: Path) {
    forall i :: 0 <= i <= |p| && p[..i] in fs ==> fs[p[..i]].Dir?
  }

  /**
    `mkdirSync(p, { recursive: true })`: every missing ancestor and `p`
    itself are created, top down; an existing directory is not an error; it
    fails exactly when some ancestor-or-self of `p` exists and is not a
    directory. Only ancestors-or-self of `p` change, and an ancestor whose
    next component on the way to `p` already existed keeps its listing.
  */
  function MkdirP(fs: Fs, p: Path): (r: Result<Fs, FsError>)
    requires Valid(fs)
    ensures r.Ok? <==> AllDirs(fs, p)
    ensures r.Ok? ==> Valid(r.value) && IsDir(r.value, p) && KindsKept(fs, r.value)
    ensures r.Ok? ==> forall q :: !IsPrefix(q, p) ==> Untouched(fs, r.value, q)
    ensures r.Ok? ==> forall q :: IsStrictPrefix(q, p) && p[..|q| + 1] in fs ==> Untouched(fs, r.value, q)
    ensures IsDir(fs, p) ==> r == Ok(fs)
    decreases |p|
  {
    if p == [] then
      assert p[..0] == [];
      Ok(fs)
    else
      AllDirsStep(fs, p);
      var up := MkdirP(fs, Parent(p));
      if up.Err? then
        Err(up.error)
      else
        var r := MkdirOne(up.value, p);
        MkdirPStep(fs, p, up.value, r);
        r
  }

  /** The ancestors-or-self of `p` are those of its parent, and `p`. */
  lemma AllDirsStep(fs: Fs, p: Path)
    requires Valid(fs) && p != []
    ensures AllDirs(fs, p) <==> AllDirs(fs, Parent(p)) && (p in fs ==> fs[p].Dir?)
    ensures IsDir(fs, p) ==> IsDir(fs, Parent(p))
  {
    AllDirsSplit(fs, p);
    assert ParentsList(fs);
  }

  lemma AllDirsSplit(fs: Fs, p: Path)
    requires p != []
    ensures AllDirs(fs, p) <==> AllDirs(fs, Parent(p)) && (p in fs ==> fs[p].Dir?)
  {
    assert p[..|p|] == p;
    assert forall i :: 0 <= i < |p| ==> p[..i] == Parent(p)[..i];
  }

  /** A strict ancestor of `p` other than its parent is a strict ancestor of the parent. */
  lemma StrictPrefixOfParent(q: Path, p: Path)
    requires IsStrictPrefix(q, p) && q != Parent(p)
    ensures IsStrictPrefix(q, Parent(p)) && Parent(p)[..|q| + 1] == p[..|q| + 1]
  {
  }

  /** The step of `MkdirP`: what the parent's `mkdir -p` and one `mkdir` give together. */
  lemma MkdirPStep(fs: Fs, p: Path, up: Fs, r: Result<Fs, FsError>)
    requires Valid(fs) && p != [] && AllDirs(fs, Parent(p))
    requires Valid(up) && IsDir(up, Parent(p)) && KindsKept(fs, up)
    requires forall q :: !IsPrefix(q, Parent(p)) ==> Untouched(fs, up, q)
    requires forall q :: IsStrictPrefix(q, Parent(p)) && Parent(p)[..|q| + 1] in fs ==> Untouched(fs, up, q)
    requires IsDir(fs, Parent(p)) ==> up == fs
    requires r == MkdirOne(up, p)
    ensures r.Ok? <==> (p in fs ==> fs[p].Dir?)
    ensures r.Ok? ==> Valid(r.value) && IsDir(r.value, p) && KindsKept(fs, r.value)
    ensures r.Ok? ==> forall q :: !IsPrefix(q, p) ==> Untouched(fs, r.value, q)
    ensures r.Ok? ==> forall q :: IsStrictPrefix(q, p) && p[..|q| + 1] in fs ==> Untouched(fs, r.value, q)
    ensures IsDir(fs, p) ==> r == Ok(fs)
  {
    SplitLast(p);
    assert !IsPrefix(p, Parent(p));
    assert Untouched(fs, up, p);
    if IsDir(fs, p) {
      assert IsDir(fs, Parent(p));
    }
    if r.Ok? {
      MkdirPStepOutside(fs, p, up, r.value);
      MkdirPStepAncestors(fs, p, up, r.value);
    }
  }

  lemma MkdirPStepOutside(fs: Fs, p: Path, up: Fs, r: Fs)
    requires p != []
    requires forall q :: !IsPrefix(q, Parent(p)) ==> Untouched(fs, up, q)
    requires forall q :: q != p && q != Parent(p) ==> Untouched(up, r, q)
    ensures forall q :: !IsPrefix(q, p) ==> Untouched(fs, r, q)
  {
    forall q | !IsPrefix(q, p)
      ensures Untouched(fs, r, q)
    {
      assert !IsPrefix(q, Parent(p));
      assert q != p && q != Parent(p);
      assert Untouched(fs, up, q);
      assert Untouched(up, r, q);
    }
  }

  lemma MkdirPStepAncestors(fs: Fs, p: Path, up: Fs, r: Fs)
    requires p != [] && (p in fs ==> IsDir(fs, Parent(p)))
    requires forall q :: IsStrictPrefix(q, Parent(p)) && Parent(p)[..|q| + 1] in fs ==> Untouched(fs, up, q)
    requires IsDir(fs, Parent(p)) ==> up == fs
    requires forall q :: q != p && q != Parent(p) ==> Untouched(up, r, q)
    requires p in up ==> r == up
    ensures forall q :: IsStrictPrefix(q, p) && p[..|q| + 1] in fs ==> Untouched(fs, r, q)
  {
    forall q | IsStrictPrefix(q, p) && p[..|q| + 1] in fs
      ensures Untouched(fs, r, q)
    {
      if q == Parent(p) {
        assert p[..|q| + 1] == p;
        assert IsDir(fs, Parent(p));
      } else {
        StrictPrefixOfParent(q, p);
        assert q != p;
        assert Untouched(fs, up, q);
        assert Untouched(up, r, q);
      }
    }
  }

  /** `unlinkSync(p)`: removes a file or a link; fails for a directory or a missing path. */
  function Unlink(fs: Fs, p: Path): (r: Result<Fs, FsError>)
    requires Valid(fs)
    ensures r.Ok? <==> p in fs && !fs[p].Dir?
    ensures r.Ok? ==> Valid(r.value) && p !in r.value && Parent(p) in r.value
    ensures r.Ok? ==> r.value[Parent(p)] == Dir(Without(fs[Parent(p)].entries, Name(p)))
    ensures r.Ok? ==> forall q :: q != p && q != Parent(p) ==> Untouched(fs, r.value, q)
  {
    if p !in fs then Err(NoEntry(p))
    else if fs[p].Dir? then Err(IsADirectory(p))
    else Ok(Detach(fs, p))
  }

  /** `rmdirSync(p)`: removes an empty directory other than the root. */
  function RmDir(fs: Fs, p: Path): (r: Result<Fs, FsError>)
    requires Valid(fs)
    ensures r.Ok? <==> IsDir(fs, p) && fs[p].entries == [] && p != []
    ensures r.Ok? ==> Valid(r.value) && p !in r.value && Parent(p) in r.value
    ensures r.Ok? ==> r.value[Parent(p)] == Dir(Without(fs[Parent(p)].entries, Name(p)))
    ensures r.Ok? ==> forall q :: q != p && q != Parent(p) ==> Untouched(fs, r.value, q)
  {
    if p !in fs then Err(NoEntry(p))
    else if !fs[p].Dir? then Err(NotADirectory(p))
    else if fs[p].entries != [] then Err(NotEmpty(p))
    else if p == [] then Err(Busy(p))
    else Ok(Detach(fs, p))
  }

  // ---------------------------------------------------------------------
  // Facts about valid trees.

  /** Every ancestor of an existing path is an existing directory. */
  lemma {:induction false} AncestorsExist(fs: Fs, p: Path, q: Path)
    requires Valid(fs) && p in fs && IsStrictPrefix(q, p)
    ensures IsDir(fs, q)
    decreases |p|
  {
    SplitLast(p);
    if q != Parent(p) {
      AncestorsExist(fs, Parent(p), q);
    }
  }

  /** The component of an existing path just below `q` is listed by `q`. */
  lemma ListedBelow(fs: Fs, p: Path, q: Path)
    requires Valid(fs) && IsStrictPrefix(q, p)
    ensures p in fs ==> p[..|q| + 1] in fs && IsDir(fs, q) && p[|q|] in fs[q].entries
  {
    if p in fs {
      var c := p[..|q| + 1];
      if c != p {
        AncestorsExist(fs, p, c);
      }
      assert Parent(c) == q && Name(c) == p[|q|];
    }
  }

  /** A non-directory, or an empty directory, has nothing below it. */
  lemma NothingBelow(fs: Fs, q: Path, p: Path)
    requires Valid(fs) && q in fs && (fs[q].Dir? ==> fs[q].entries == [])
    requires IsStrictPrefix(q, p)
    ensures p !in fs
  {
    ListedBelow(fs, p, q);
  }
}
