/**
  `emptyDir(dir)` and `canSkipEmptying(dir)`: clearing a target directory
  before scaffolding into it. `emptyDir` walks the directory in post-order
  and removes each directory with `rmdirSync` and everything else with
  `unlinkSync`; the `.git` entries the traversal skips stay where they are.
*/
module EmptyDirectory {
  import opened Wrappers
  import opened Strings
  import opened Files
  import opened PostOrderTraverse

  /** One callback: `rmdirSync` for a directory event, `unlinkSync` for a file event. */
  function Step(fs: Fs, e: Event): (r: Result<Fs, FsError>)
    requires Valid(fs)
    ensures r.Ok? ==> Valid(r.value) && e.path !in r.value && r.value.Keys <= fs.Keys
    ensures r.Ok? <==> e.path in fs && (if e.DirDone? then fs[e.path].Dir? && fs[e.path].entries == [] && e.path != [] else !fs[e.path].Dir?)
  {
    match e
    case DirDone(p) => RmDir(fs, p)
    case FileVisit(p) => Unlink(fs, p)
  }

  /** The callbacks run in trace order; the first one that throws ends the run with its error. */
  function Apply(fs: Fs, t: seq<Event>): (r: Result<Fs, FsError>)
    requires Valid(fs)
    ensures r.Ok? ==> Valid(r.value)
    ensures r.Ok? ==> r.value.Keys <= fs.Keys
    ensures r.Ok? ==> forall e :: e in t ==> e.path !in r.value
    decreases |t|
  {
    if t == [] then Ok(fs)
    else
      var next :- Step(fs, t[0]);
      Apply(next, t[1..])
  }

  /**
    `emptyDir(dir)`: nothing happens when `dir` does not exist; listing a
    path that is not a directory throws; otherwise the traversal's
    callbacks run.
  */
  function EmptyDir(fs: Fs, dir: Path): (r: Result<Fs, FsError>)
    requires Valid(fs)
    ensures dir !in fs ==> r == Ok(fs)
    ensures dir in fs && !fs[dir].Dir? ==> r == Err(NotADirectory(dir))
    ensures r.Ok? ==> Valid(r.value)
  {
    if dir !in fs then Ok(fs)
    else if !fs[dir].Dir? then Err(NotADirectory(dir))
    else Apply(fs, Traverse(fs, dir))
  }

  /**
    `canSkipEmptying(dir)`: a missing directory, an empty one, or one that
    holds nothing but `.git` need not be emptied. Listing a path that is not
    a directory throws.
  */
  function CanSkipEmptying(fs: Fs, dir: Path): (r: Result<bool, FsError>)
    requires Valid(fs)
    ensures r.Err? <==> dir in fs && !fs[dir].Dir?
    ensures r == Ok(true) <==> dir !in fs || (IsDir(fs, dir) && forall n :: n in fs[dir].entries ==> n == ".git")
  {
    if dir !in fs then Ok(true)
    else if !fs[dir].Dir? then Err(NotADirectory(dir))
    else
      var files := fs[dir].entries;
      GitListing(files);
      if |files| == 0 then Ok(true)
      else if |files| == 1 && files[0] == ".git" then Ok(true)
      else Ok(false)
  }

  /** A listing without repeats whose every name is `.git` is `[]` or `[".git"]`. */
  lemma GitListing(xs: seq<string>)
    requires Distinct(xs)
    ensures (forall n :: n in xs ==> n == ".git") <==> xs == [] || xs == [".git"]
  {
    if |xs| == 1 {
      assert xs == [xs[0]] && xs[0] in xs;
    } else if |xs| >= 2 {
      assert xs[0] in xs && xs[1] in xs && xs[0] != xs[1];
    }
  }

  // ---------------------------------------------------------------------
  // What emptying leaves behind.

  /** The `.git` names of a listing, in order. */
  function GitOnly(xs: seq<string>): (r: seq<string>)
    ensures forall y :: y in r ==> y == ".git"
    ensures ".git" in r <==> ".git" in xs
    decreases |xs|
  {
    if xs == [] then []
    else GitOnly(xs[..|xs| - 1]) + (if xs[|xs| - 1] == ".git" then [".git"] else [])
  }

  /** In a listing without repeats, `GitOnly` keeps one `.git` if there was one. */
  lemma {:induction false} GitOnlyDistinct(xs: seq<string>)
    requires Distinct(xs)
    ensures GitOnly(xs) == if ".git" in xs then [".git"] else []
    decreases |xs|
  {
    if xs != [] {
      var init := xs[..|xs| - 1];
      assert xs == init + [xs[|xs| - 1]];
      assert Distinct(init) by {
        forall i, j | 0 <= i < j < |init| ensures init[i] != init[j] {
          assert init[i] == xs[i] && init[j] == xs[j];
        }
      }
      GitOnlyDistinct(init);
      if xs[|xs| - 1] == ".git" {
        assert ".git" !in init by {
          forall i | 0 <= i < |init| ensures init[i] != ".git" {
            assert init[i] == xs[i];
          }
        }
      }
    }
  }

  /**
    No `.git` lies below `dir` outside `dir`'s own `.git` entry, whose
    subtree the traversal never enters.
  */
  ghost predicate NoNestedGit(fs: Fs, dir: Path) {
    forall q, k :: q in fs && IsStrictPrefix(dir, q) && q[|dir|] != ".git" && |dir| < k < |q| ==> q[k] != ".git"
  }

  /**
    The state after the callbacks for the first `i` names of `d`'s original
    listing `E`: those names other than `.git` are gone from `d`'s listing
    together with everything below them, and the rest of the subtree is as
    it was.
  */
  ghost predicate Emptied(fs0: Fs, d: Path, i: nat, fs: Fs)
    requires IsDir(fs0, d) && i <= |fs0[d].entries|
  {
    var E := fs0[d].entries;
    && d in fs && fs[d] == Dir(GitOnly(E[..i]) + E[i..])
    && KeptBelow(fs0, d, E[i..], fs)
    && SameBelow(fs0, d, fs)
  }

  /** Strictly below `d`, `fs` holds what `fs0` holds under `.git` and under the names `rest`. */
  ghost predicate KeptBelow(fs0: Fs, d: Path, rest: seq<string>, fs: Fs) {
    forall q :: IsStrictPrefix(d, q) ==> (q in fs <==> q in fs0 && (q[|d|] == ".git" || q[|d|] in rest))
  }

  /** Strictly below `d`, whatever `fs` holds is as in `fs0`. */
  ghost predicate SameBelow(fs0: Fs, d: Path, fs: Fs) {
    forall q :: IsStrictPrefix(d, q) && q in fs && q in fs0 ==> fs[q] == fs0[q]
  }

  /** A fully emptied `d` lists only `.git` names and keeps only what lies under them. */
  lemma EmptiedDone(fs0: Fs, d: Path, fs: Fs)
    requires IsDir(fs0, d) && Emptied(fs0, d, |fs0[d].entries|, fs)
    ensures d in fs && fs[d] == Dir(GitOnly(fs0[d].entries))
    ensures KeptBelow(fs0, d, [], fs) && SameBelow(fs0, d, fs)
  {
    var E := fs0[d].entries;
    assert E[..|E|] == E && E[|E|..] == [];
  }

  /** The trace of `c`, applied to a tree that agrees with `fs0` at and below `c`, empties `c`. */
  lemma {:induction false} ApplyTraverse(fs0: Fs, c: Path, fs: Fs)
    requires Valid(fs0) && IsDir(fs0, c) && NoNestedGit(fs0, c) && Valid(fs)
    requires c in fs && fs[c] == fs0[c]
    requires forall q :: IsStrictPrefix(c, q) ==> Untouched(fs0, fs, q)
    ensures Apply(fs, Traverse(fs0, c)).Ok?
    ensures Emptied(fs0, c, |fs0[c].entries|, Apply(fs, Traverse(fs0, c)).value)
    ensures forall q :: !IsPrefix(c, q) ==> Untouched(fs, Apply(fs, Traverse(fs0, c)).value, q)
    decreases Reach(fs0, c), |fs0[c].entries| + 1, 3
  {
    var E := fs0[c].entries;
    assert E[..0] == [] && E[0..] == E;
    forall q | IsStrictPrefix(c, q)
      ensures q in fs <==> q in fs0 && (q[|c|] == ".git" || q[|c|] in E)
    {
      ListedBelow(fs0, q, c);
    }
    assert KeptBelow(fs0, c, E[0..], fs);
    ApplyVisit(fs0, c, 0, fs);
  }

  /** The callbacks for names `i..` of `d`'s original listing finish emptying `d`. */
  lemma {:induction false} ApplyVisit(fs0: Fs, d: Path, i: nat, fs: Fs)
    requires Valid(fs0) && IsDir(fs0, d) && NoNestedGit(fs0, d) && Valid(fs)
    requires i <= |fs0[d].entries| && Emptied(fs0, d, i, fs)
    ensures Apply(fs, Visit(fs0, d, fs0[d].entries[i..])).Ok?
    ensures Emptied(fs0, d, |fs0[d].entries|, Apply(fs, Visit(fs0, d, fs0[d].entries[i..])).value)
    ensures forall q :: !IsPrefix(d, q) ==> Untouched(fs, Apply(fs, Visit(fs0, d, fs0[d].entries[i..])).value, q)
    decreases Reach(fs0, d), |fs0[d].entries| - i, 2
  {
    var E := fs0[d].entries;
    if i == |E| {
      assert E[i..] == [];
    } else {
      var n := E[i];
      assert E[i..][0] == n && E[i..][1..] == E[i + 1..];
      var here := Here(fs0, d, n);
      var rest := Visit(fs0, d, E[i + 1..]);
      assert Visit(fs0, d, E[i..]) == here + rest;
      var fs2 := RemoveChild(fs0, d, i, fs);
      ApplyAppend(fs, here, rest);
      ApplyVisit(fs0, d, i + 1, fs2);
      var r := Apply(fs2, rest).value;
      forall q | !IsPrefix(d, q)
        ensures Untouched(fs, r, q)
      {
        assert Untouched(fs, fs2, q) && Untouched(fs2, r, q);
      }
    }
  }

  /** Running `a + b` is running `a`, then `b` on what `a` left. */
  lemma {:induction false} ApplyAppend(fs: Fs, a: seq<Event>, b: seq<Event>)
    requires Valid(fs)
    ensures Apply(fs, a + b) == if Apply(fs, a).Err? then Apply(fs, a) else Apply(Apply(fs, a).value, b)
    decreases |a|
  {
    if a == [] {
      assert a + b == b;
    } else {
      assert (a + b)[0] == a[0] && (a + b)[1..] == a[1..] + b;
      if Step(fs, a[0]).Ok? {
        ApplyAppend(Step(fs, a[0]).value, a[1..], b);
      }
    }
  }

  /** The callbacks for one name `E[i]` of `d`: its subtree and then itself are removed. */
  lemma {:induction false} RemoveChild(fs0: Fs, d: Path, i: nat, fs: Fs) returns (fs2: Fs)
    requires Valid(fs0) && IsDir(fs0, d) && NoNestedGit(fs0, d) && Valid(fs)
    requires i < |fs0[d].entries| && Emptied(fs0, d, i, fs)
    ensures Apply(fs, Here(fs0, d, fs0[d].entries[i])) == Ok(fs2) && Valid(fs2)
    ensures Emptied(fs0, d, i + 1, fs2)
    ensures forall q :: !IsPrefix(d, q) ==> Untouched(fs, fs2, q)
    decreases Reach(fs0, d), |fs0[d].entries| - i, 1
  {
    var E := fs0[d].entries;
    var n := E[i];
    var c := d + [n];
    ChildReach(fs0, d, n);
    assert IsStrictPrefix(d, c) && c[|d|] == n && n in E[i..];
    assert c in fs && fs[c] == fs0[c];
    if n == ".git" {
      fs2 := fs;
      assert Here(fs0, d, n) == [];
      GitStep(fs0, d, i, fs);
    } else if fs0[c].Dir? {
      fs2 := RemoveSubdir(fs0, d, i, fs);
    } else {
      fs2 := RemoveFile(fs0, d, i, fs);
    }
  }

  /** A file or link entry: `unlinkSync` removes it. */
  lemma RemoveFile(fs0: Fs, d: Path, i: nat, fs: Fs) returns (fs2: Fs)
    requires Valid(fs0) && IsDir(fs0, d) && Valid(fs)
    requires i < |fs0[d].entries| && Emptied(fs0, d, i, fs)
    requires fs0[d].entries[i] != ".git" && d + [fs0[d].entries[i]] in fs0 && !fs0[d + [fs0[d].entries[i]]].Dir?
    requires d + [fs0[d].entries[i]] in fs && fs[d + [fs0[d].entries[i]]] == fs0[d + [fs0[d].entries[i]]]
    ensures Apply(fs, Here(fs0, d, fs0[d].entries[i])) == Ok(fs2) && Valid(fs2)
    ensures Emptied(fs0, d, i + 1, fs2)
    ensures forall q :: !IsPrefix(d, q) ==> Untouched(fs, fs2, q)
  {
    var E := fs0[d].entries;
    var n := E[i];
    var c := d + [n];
    fs2 := Unlink(fs, c).value;
    assert Here(fs0, d, n) == [FileVisit(c)];
    ApplyOne(fs, FileVisit(c));
    forall q | IsStrictPrefix(c, q)
      ensures q !in fs
    {
      NothingBelow(fs, c, q);
    }
    assert Parent(c) == d && Name(c) == n;
    ChildStep(fs0, d, i, fs, fs, fs2);
  }

  /** A subdirectory entry: its own trace empties it, then `rmdirSync` removes it. */
  lemma {:induction false} RemoveSubdir(fs0: Fs, d: Path, i: nat, fs: Fs) returns (fs2: Fs)
    requires Valid(fs0) && IsDir(fs0, d) && NoNestedGit(fs0, d) && Valid(fs)
    requires i < |fs0[d].entries| && Emptied(fs0, d, i, fs)
    requires fs0[d].entries[i] != ".git" && IsDir(fs0, d + [fs0[d].entries[i]])
    requires d + [fs0[d].entries[i]] in fs && fs[d + [fs0[d].entries[i]]] == fs0[d + [fs0[d].entries[i]]]
    ensures Apply(fs, Here(fs0, d, fs0[d].entries[i])) == Ok(fs2) && Valid(fs2)
    ensures Emptied(fs0, d, i + 1, fs2)
    ensures forall q :: !IsPrefix(d, q) ==> Untouched(fs, fs2, q)
    decreases Reach(fs0, d), |fs0[d].entries| - i, 0
  {
    var E := fs0[d].entries;
    var n := E[i];
    var c := d + [n];
    ChildReach(fs0, d, n);
    SubdirReady(fs0, d, i, fs);
    ApplyTraverse(fs0, c, fs);
    var mid := Apply(fs, Traverse(fs0, c)).value;
    SubdirEmptied(fs0, d, n, mid);
    fs2 := RmDir(mid, c).value;
    ApplyOne(mid, DirDone(c));
    ApplyAppend(fs, Traverse(fs0, c), [DirDone(c)]);
    HereSubdir(fs0, d, n);
    ChildStep(fs0, d, i, fs, mid, fs2);
  }

  lemma ApplyOne(fs: Fs, e: Event)
    requires Valid(fs)
    ensures Apply(fs, [e]) == Step(fs, e)
  {
    assert [e][1..] == [];
  }

  lemma HereSubdir(fs: Fs, d: Path, n: string)
    requires Valid(fs) && IsDir(fs, d) && n in fs[d].entries && n != ".git" && IsDir(fs, d + [n])
    ensures Here(fs, d, n) == Traverse(fs, d + [n]) + [DirDone(d + [n])]
  {
  }

  /** The subtree of a subdirectory entry has no `.git` inside and is as in `fs0`. */
  lemma SubdirReady(fs0: Fs, d: Path, i: nat, fs: Fs)
    requires IsDir(fs0, d) && NoNestedGit(fs0, d)
    requires i < |fs0[d].entries| && fs0[d].entries[i] != ".git" && Emptied(fs0, d, i, fs)
    ensures NoNestedGit(fs0, d + [fs0[d].entries[i]])
    ensures forall q :: IsStrictPrefix(d + [fs0[d].entries[i]], q) ==> Untouched(fs0, fs, q)
  {
    var E := fs0[d].entries;
    var n := E[i];
    var c := d + [n];
    forall q, k | q in fs0 && IsStrictPrefix(c, q) && q[|c|] != ".git" && |c| < k < |q|
      ensures q[k] != ".git"
    {
      assert q[..|d|] == d && q[|d|] == n;
    }
    assert E[i..][0] == n && n in E[i..];
    forall q | IsStrictPrefix(c, q)
      ensures Untouched(fs0, fs, q)
    {
      assert q[..|c|] == c;
      assert q[..|d|] == d && q[|d|] == n;
    }
  }

  /** An emptied subdirectory entry (other than `.git`) lists nothing and has nothing below it. */
  lemma SubdirEmptied(fs0: Fs, d: Path, n: string, mid: Fs)
    requires Valid(fs0) && NoNestedGit(fs0, d) && n != ".git"
    requires IsDir(fs0, d + [n]) && Emptied(fs0, d + [n], |fs0[d + [n]].entries|, mid)
    ensures d + [n] in mid && mid[d + [n]] == Dir([])
    ensures forall q :: IsStrictPrefix(d + [n], q) ==> q !in mid
  {
    var c := d + [n];
    EmptiedDone(fs0, c, mid);
    var Ec := fs0[c].entries;
    var g := c + [".git"];
    assert g[..|d|] == d && |d| < |c| < |g| && g[|c|] == ".git";
    assert g !in fs0;
    GitOnlyNone(Ec);
    forall q | IsStrictPrefix(c, q)
      ensures q !in mid
    {
      assert q[..|d|] == d;
    }
  }

  /** A listing without `.git` keeps nothing. */
  lemma GitOnlyNone(xs: seq<string>)
    requires ".git" !in xs
    ensures GitOnly(xs) == []
  {
    if GitOnly(xs) != [] {
      assert GitOnly(xs)[0] in GitOnly(xs);
    }
  }

  /** Skipping `.git` moves it, unchanged, into the kept part of the listing. */
  lemma GitStep(fs0: Fs, d: Path, i: nat, fs: Fs)
    requires IsDir(fs0, d) && i < |fs0[d].entries| && fs0[d].entries[i] == ".git"
    requires Emptied(fs0, d, i, fs)
    ensures Emptied(fs0, d, i + 1, fs)
  {
    var E := fs0[d].entries;
    GitListingStep(E, i);
    GitBelowStep(fs0, d, E[i..], fs);
  }

  lemma GitListingStep(E: seq<string>, i: nat)
    requires i < |E| && E[i] == ".git"
    ensures GitOnly(E[..i]) + E[i..] == GitOnly(E[..i + 1]) + E[i + 1..]
  {
    assert E[..i + 1] == E[..i] + [E[i]];
    assert E[..i + 1][..i] == E[..i];
    assert GitOnly(E[..i + 1]) == GitOnly(E[..i]) + [".git"];
    assert E[i..] == [E[i]] + E[i + 1..];
  }

  lemma GitBelowStep(fs0: Fs, d: Path, rest: seq<string>, fs: Fs)
    requires rest != [] && rest[0] == ".git"
    requires KeptBelow(fs0, d, rest, fs)
    ensures KeptBelow(fs0, d, rest[1..], fs)
  {
    forall q | IsStrictPrefix(d, q)
      ensures (q in fs <==> q in fs0 && (q[|d|] == ".git" || q[|d|] in rest[1..]))
    {
      assert q[|d|] in rest <==> q[|d|] == ".git" || q[|d|] in rest[1..] by {
        assert rest == [rest[0]] + rest[1..];
      }
    }
  }

  /**
    Once the subtree of `c = d + [E[i]]` is gone (`mid`) and `c` itself has
    been removed (`fs2`), `d` is emptied up to `i + 1`.
  */
  lemma ChildStep(fs0: Fs, d: Path, i: nat, fs: Fs, mid: Fs, fs2: Fs)
    requires IsDir(fs0, d) && i < |fs0[d].entries| && fs0[d].entries[i] != ".git"
    requires Distinct(fs0[d].entries)
    requires Emptied(fs0, d, i, fs)
    requires forall q :: !IsPrefix(d + [fs0[d].entries[i]], q) ==> Untouched(fs, mid, q)
    requires forall q :: IsStrictPrefix(d + [fs0[d].entries[i]], q) ==> q !in mid
    requires IsDir(mid, d)
    requires d + [fs0[d].entries[i]] !in fs2 && d in fs2
    requires fs2[d] == Dir(Without(mid[d].entries, fs0[d].entries[i]))
    requires forall q :: q != d + [fs0[d].entries[i]] && q != d ==> Untouched(mid, fs2, q)
    ensures Emptied(fs0, d, i + 1, fs2)
    ensures forall q :: !IsPrefix(d, q) ==> Untouched(fs, fs2, q)
  {
    var E := fs0[d].entries;
    var n := E[i];
    var c := d + [n];
    assert !IsPrefix(c, d);
    assert Untouched(fs, mid, d);
    ChildListing(E, i, fs[d], fs2[d]);
    assert E[i..] == [n] + E[i + 1..];
    BelowStep(fs0, d, n, E[i + 1..], fs, mid, fs2);
    ChildFrame(d, n, fs, mid, fs2);
  }

  /** `d`'s listing once `E[i]` is struck from it. */
  lemma ChildListing(E: seq<string>, i: nat, before: Node, after: Node)
    requires Distinct(E) && i < |E| && E[i] != ".git"
    requires before == Dir(GitOnly(E[..i]) + E[i..])
    requires after == Dir(Without(before.entries, E[i]))
    ensures after == Dir(GitOnly(E[..i + 1]) + E[i + 1..])
  {
    ListingStep(E, i);
  }

  /** Outside `d`, neither removing the subtree of `d + [n]` nor `d + [n]` itself changes anything. */
  lemma ChildFrame(d: Path, n: string, fs: Fs, mid: Fs, fs2: Fs)
    requires forall q :: !IsPrefix(d + [n], q) ==> Untouched(fs, mid, q)
    requires forall q :: q != d + [n] && q != d ==> Untouched(mid, fs2, q)
    ensures forall q :: !IsPrefix(d, q) ==> Untouched(fs, fs2, q)
  {
    forall q | !IsPrefix(d, q)
      ensures Untouched(fs, fs2, q)
    {
      assert !IsPrefix(d + [n], q);
      assert Untouched(fs, mid, q) && Untouched(mid, fs2, q);
    }
  }

  /** Striking `E[i]` from the listing kept after `i` names gives the listing kept after `i + 1`. */
  lemma ListingStep(E: seq<string>, i: nat)
    requires Distinct(E) && i < |E| && E[i] != ".git"
    ensures Without(GitOnly(E[..i]) + E[i..], E[i]) == GitOnly(E[..i + 1]) + E[i + 1..]
    ensures E[i] !in E[i + 1..]
  {
    var n := E[i];
    var G := GitOnly(E[..i]);
    assert E[..i + 1] == E[..i] + [E[i]] && E[..i + 1][..i] == E[..i];
    assert GitOnly(E[..i + 1]) == G;
    assert n !in E[i + 1..] by {
      forall j | i + 1 <= j < |E| ensures E[j] != n {
      }
    }
    assert G + E[i..] == G + [n] + E[i + 1..];
    WithoutSplit(G, n, E[i + 1..]);
  }

  /** Below `d`, removing the subtree of `d + [n]` drops `n` from the names kept. */
  lemma BelowStep(fs0: Fs, d: Path, n: string, rest: seq<string>, fs: Fs, mid: Fs, fs2: Fs)
    requires n != ".git" && n !in rest
    requires KeptBelow(fs0, d, [n] + rest, fs) && SameBelow(fs0, d, fs)
    requires forall q :: !IsPrefix(d + [n], q) ==> Untouched(fs, mid, q)
    requires forall q :: IsStrictPrefix(d + [n], q) ==> q !in mid
    requires d + [n] !in fs2
    requires forall q :: q != d + [n] && q != d ==> Untouched(mid, fs2, q)
    ensures KeptBelow(fs0, d, rest, fs2) && SameBelow(fs0, d, fs2)
  {
    var c := d + [n];
    forall q | IsStrictPrefix(d, q)
      ensures (q in fs2 <==> q in fs0 && (q[|d|] == ".git" || q[|d|] in rest))
      ensures q in fs2 ==> fs2[q] == fs0[q]
    {
      if IsPrefix(c, q) {
        assert q[|d|] == n;
        if q != c {
          assert q !in mid;
          assert Untouched(mid, fs2, q);
        }
      } else {
        assert q[..|d| + 1] == d + [q[|d|]];
        assert Untouched(fs, mid, q) && Untouched(mid, fs2, q);
      }
    }
  }

  // ---------------------------------------------------------------------
  // The properties `emptyDir` and `canSkipEmptying` promise.

  /**
    Emptying a directory without nested `.git` succeeds; afterwards the
    directory lists at most its own `.git`, which is left exactly as it was,
    and nothing outside the directory changes.
  */
  lemma EmptyDirKeepsOnlyGit(fs: Fs, dir: Path)
    requires Valid(fs) && IsDir(fs, dir) && NoNestedGit(fs, dir)
    ensures EmptyDir(fs, dir).Ok?
    ensures var r := EmptyDir(fs, dir).value;
      && IsDir(r, dir)
      && r[dir].entries == (if ".git" in fs[dir].entries then [".git"] else [])
      && (forall q :: IsStrictPrefix(dir, q) ==> (q in r <==> q in fs && q[|dir|] == ".git"))
      && (forall q :: IsStrictPrefix(dir, q) && q in r ==> r[q] == fs[q])
      && (forall q :: !IsPrefix(dir, q) ==> Untouched(fs, r, q))
  {
    var E := fs[dir].entries;
    forall q | IsStrictPrefix(dir, q)
      ensures Untouched(fs, fs, q)
    {
    }
    ApplyTraverse(fs, dir, fs);
    var r := EmptyDir(fs, dir).value;
    EmptiedDone(fs, dir, r);
    GitOnlyDistinct(E);
    forall q | IsStrictPrefix(dir, q)
      ensures q in r <==> q in fs && q[|dir|] == ".git"
    {
    }
  }

  /** When `canSkipEmptying` says yes, emptying would change nothing. */
  lemma SkippableIsUnchanged(fs: Fs, dir: Path)
    requires Valid(fs) && CanSkipEmptying(fs, dir) == Ok(true)
    ensures EmptyDir(fs, dir) == Ok(fs)
  {
    if dir in fs {
      var E := fs[dir].entries;
      GitListing(E);
      GitOnlyTrace(fs, dir);
      assert Apply(fs, []) == Ok(fs);
    }
  }

  /** A directory listing nothing or only `.git` gets no callbacks. */
  lemma GitOnlyTrace(fs: Fs, dir: Path)
    requires Valid(fs) && IsDir(fs, dir)
    requires fs[dir].entries == [] || fs[dir].entries == [".git"]
    ensures Traverse(fs, dir) == []
  {
    var E := fs[dir].entries;
    if E != [] {
      assert Here(fs, dir, ".git") == [];
      assert E[1..] == [];
      assert Visit(fs, dir, E[1..]) == [];
      assert Visit(fs, dir, E) == Here(fs, dir, E[0]) + Visit(fs, dir, E[1..]);
    }
  }

  /**
    Conversely, with no nested `.git`, a directory that `canSkipEmptying`
    turns down is changed by emptying it.
  */
  lemma NotSkippableChanges(fs: Fs, dir: Path)
    requires Valid(fs) && NoNestedGit(fs, dir) && CanSkipEmptying(fs, dir) == Ok(false)
    ensures EmptyDir(fs, dir).Ok? && EmptyDir(fs, dir).value != fs
  {
    EmptyDirKeepsOnlyGit(fs, dir);
    var E := fs[dir].entries;
    var n :| n in E && n != ".git";
    assert dir + [n] in fs && IsStrictPrefix(dir, dir + [n]) && (dir + [n])[|dir|] == n;
  }

  /** A project whose subdirectory `a` holds a `.git` of its own. */
  function NestedGitTree(): Fs {
    map[[] := Dir(["a"]), ["a"] := Dir([".git"]), ["a", ".git"] := Dir([])]
  }

  lemma NestedGitTreeValid()
    ensures Valid(NestedGitTree())
  {
    NestedGitTreeParents();
    NestedGitTreeListings();
    NestedGitTreeDistinct();
    assert NestedGitTree()[[]] == Dir(["a"]);
  }

  lemma NestedGitTreeDistinct()
    ensures ListingsDistinct(NestedGitTree())
  {
    var fs := NestedGitTree();
    forall p | p in fs && fs[p].Dir?
      ensures Distinct(fs[p].entries)
    {
      assert |fs[p].entries| <= 1;
    }
  }

  lemma NestedGitTreeParents()
    ensures ParentsList(NestedGitTree())
  {
    var fs := NestedGitTree();
    var a, g := ["a"], ["a", ".git"];
    assert Parent(a) == [] && Name(a) == "a";
    assert Parent(g) == a && Name(g) == ".git";
    forall p | p in fs && p != []
      ensures IsDir(fs, Parent(p)) && Name(p) in fs[Parent(p)].entries
    {
      if |p| == 1 { assert p == a; } else { assert p == g; }
    }
  }

  lemma NestedGitTreeListings()
    ensures ListingsExist(NestedGitTree())
  {
    var fs := NestedGitTree();
    var a, g := ["a"], ["a", ".git"];
    assert [] + ["a"] == a && a + [".git"] == g;
    forall p, n | p in fs && fs[p].Dir? && n in fs[p].entries
      ensures p + [n] in fs
    {
      if p == [] { assert n == "a"; } else if |p| == 1 { assert p == a && n == ".git"; }
    }
  }

  /** A `.git` nested deeper throws: its parent's `rmdirSync` finds it still there. */
  lemma NestedGitFails()
    ensures Valid(NestedGitTree()) && EmptyDir(NestedGitTree(), []) == Err(NotEmpty(["a"]))
  {
    var fs := NestedGitTree();
    NestedGitTreeValid();
    NestedGitTrace();
    assert fs[["a"]] == Dir([".git"]);
    assert Step(fs, DirDone(["a"])) == Err(NotEmpty(["a"]));
    assert Apply(fs, [DirDone(["a"])]) == Err(NotEmpty(["a"]));
  }

  /** The trace of the nested tree: `a` holds only the skipped `.git`, so it is reported at once. */
  lemma NestedGitTrace()
    ensures Valid(NestedGitTree()) && Traverse(NestedGitTree(), []) == [DirDone(["a"])]
  {
    var fs := NestedGitTree();
    NestedGitTreeValid();
    assert fs[["a"]] == Dir([".git"]) && fs[[]] == Dir(["a"]);
    assert [] + ["a"] == ["a"];
    GitOnlyTrace(fs, ["a"]);
    assert Here(fs, [], "a") == [DirDone(["a"])];
    assert ["a"][1..] == [];
    assert Visit(fs, [], ["a"]) == Here(fs, [], "a") + Visit(fs, [], []);
  }

  /** A project directory holding only a `.git` that holds a `.git` of its own. */
  function GitInGitTree(): Fs {
    map[[] := Dir([".git"]), [".git"] := Dir([".git"]), [".git", ".git"] := Dir([])]
  }

  lemma GitInGitTreeValid()
    ensures Valid(GitInGitTree())
  {
    GitInGitTreeParents();
    GitInGitTreeListings();
    GitInGitTreeDistinct();
    assert GitInGitTree()[[]] == Dir([".git"]);
  }

  lemma GitInGitTreeDistinct()
    ensures ListingsDistinct(GitInGitTree())
  {
    var fs := GitInGitTree();
    forall p | p in fs && fs[p].Dir?
      ensures Distinct(fs[p].entries)
    {
      assert |fs[p].entries| <= 1;
    }
  }

  lemma GitInGitTreeParents()
    ensures ParentsList(GitInGitTree())
  {
    var fs := GitInGitTree();
    var g, gg := [".git"], [".git", ".git"];
    assert Parent(g) == [] && Name(g) == ".git";
    assert Parent(gg) == g && Name(gg) == ".git";
    forall p | p in fs && p != []
      ensures IsDir(fs, Parent(p)) && Name(p) in fs[Parent(p)].entries
    {
      if |p| == 1 { assert p == g; } else { assert p == gg; }
    }
  }

  lemma GitInGitTreeListings()
    ensures ListingsExist(GitInGitTree())
  {
    var fs := GitInGitTree();
    var g, gg := [".git"], [".git", ".git"];
    assert [] + [".git"] == g && g + [".git"] == gg;
    forall p, n | p in fs && fs[p].Dir? && n in fs[p].entries
      ensures p + [n] in fs
    {
      if p == [] { assert n == ".git"; } else if |p| == 1 { assert p == g && n == ".git"; }
    }
  }

  /**
    The traversal never enters the project's own `.git`, so a `.git` inside
    it is no nested `.git`, and emptying the project changes nothing.
  */
  lemma GitInGitEmptied()
    ensures Valid(GitInGitTree()) && NoNestedGit(GitInGitTree(), [])
    ensures EmptyDir(GitInGitTree(), []) == Ok(GitInGitTree())
  {
    var fs := GitInGitTree();
    GitInGitTreeValid();
    forall q | q in fs && q != []
      ensures q[0] == ".git"
    {
      assert q == [".git"] || q == [".git", ".git"];
    }
    assert fs[[]] == Dir([".git"]);
    GitOnlyTrace(fs, []);
    assert Apply(fs, []) == Ok(fs);
  }
}
