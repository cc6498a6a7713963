/**
  `postOrderDirectoryTraverse(dir, dirCallback, fileCallback)` as the trace
  of callbacks it makes. For each name in `readdirSync(dir)` other than
  `.git`, a directory (by `lstat`, so a link is never one) is traversed and
  then reported with `dirCallback`; anything else is reported with
  `fileCallback`.

  The trace is computed from the tree as it is before the first callback.
  This is the trace the interleaved original produces for callbacks that
  only remove what they are given: a directory is listed before any callback
  for its entries, and each callback concerns a path below an entry that has
  already been listed.
*/
module PostOrderTraverse {
  import opened Strings
  import opened Files

  datatype Event =
    | DirDone(path: Path)
    | FileVisit(path: Path)

  /** The paths at or below `d`: what a traversal of `d` can still reach. */
  ghost function Reach(fs: Fs, d: Path): set<Path> {
    set q | q in fs.Keys && IsPrefix(d, q)
  }

  /** No component of `p` from position `from` on is `.git`. */
  predicate NoGitFrom(p: Path, from: nat) {
    forall k :: from <= k < |p| ==> p[k] != ".git"
  }

  /** The event a path gets: `dirCallback` for a directory, `fileCallback` for a file or a link. */
  function EventFor(fs: Fs, p: Path): Event
    requires p in fs
  {
    if fs[p].Dir? then DirDone(p) else FileVisit(p)
  }

  /** What an event says about `fs`: its path is an entry strictly below `d`, of the kind the event claims, reached without crossing `.git`. */
  ghost predicate Reports(fs: Fs, d: Path, e: Event) {
    && IsStrictPrefix(d, e.path)
    && e.path in fs
    && e == EventFor(fs, e.path)
    && NoGitFrom(e.path, |d|)
  }

  /** The traversal of directory `d`: every event is about an entry strictly below `d`, never `d` itself. */
  function Traverse(fs: Fs, d: Path): (r: seq<Event>)
    requires Valid(fs) && IsDir(fs, d)
    ensures forall e :: e in r ==> Reports(fs, d, e)
    decreases Reach(fs, d), |fs[d].entries| + 1
  {
    Visit(fs, d, fs[d].entries)
  }

  /** The loop over the listing `names` of `d`. */
  function Visit(fs: Fs, d: Path, names: seq<string>): (r: seq<Event>)
    requires Valid(fs) && IsDir(fs, d)
    requires forall n :: n in names ==> n in fs[d].entries
    ensures forall e :: e in r ==> Reports(fs, d, e) && e.path[|d|] in names
    decreases Reach(fs, d), |names|
  {
    if names == [] then []
    else
      Here(fs, d, names[0]) + Visit(fs, d, names[1..])
  }

  /** The events of one listed name: none for `.git`, a subtree then its directory, or one file. */
  function Here(fs: Fs, d: Path, n: string): (r: seq<Event>)
    requires Valid(fs) && IsDir(fs, d) && n in fs[d].entries
    ensures forall e :: e in r ==> Reports(fs, d, e) && e.path[|d|] == n
    decreases Reach(fs, d), 0
  {
    var child := d + [n];
    ChildReach(fs, d, n);
    if n == ".git" then []
    else if fs[child].Dir? then
      var sub := Traverse(fs, child);
      SubtreeEvents(fs, d, n, sub);
      sub + [DirDone(child)]
    else [FileVisit(child)]
  }

  /** A child of `d` reaches strictly less than `d` does. */
  lemma ChildReach(fs: Fs, d: Path, n: string)
    requires Valid(fs) && IsDir(fs, d) && n in fs[d].entries
    ensures d + [n] in fs
    ensures Reach(fs, d + [n]) < Reach(fs, d)
  {
    var c := d + [n];
    forall q | q in Reach(fs, c)
      ensures q in Reach(fs, d)
    {
      assert q[..|d|] == c[..|d|];
    }
    assert d in Reach(fs, d);
    assert d !in Reach(fs, c);
  }

  /** The events of a listed child's subtree lie below the child and report it faithfully. */
  lemma SubtreeEvents(fs: Fs, d: Path, n: string, sub: seq<Event>)
    requires n != ".git"
    requires forall e :: e in sub ==> Reports(fs, d + [n], e)
    ensures forall e :: e in sub ==> Reports(fs, d, e) && e.path[|d|] == n
  {
    var c := d + [n];
    forall e | e in sub
      ensures Reports(fs, d, e) && e.path[|d|] == n
    {
      assert e.path[..|d|] == c[..|d|];
      assert e.path[|d|] == c[|d|];
    }
  }

  // ---------------------------------------------------------------------
  // What the trace promises.

  /** Every entry below `d` that is not inside a `.git` gets its callback. */
  lemma {:induction false} TraverseComplete(fs: Fs, d: Path, q: Path)
    requires Valid(fs) && IsDir(fs, d)
    requires q in fs && IsStrictPrefix(d, q) && NoGitFrom(q, |d|)
    ensures EventFor(fs, q) in Traverse(fs, d)
    decreases Reach(fs, d), |fs[d].entries| + 1
  {
    ListedBelow(fs, q, d);
    VisitComplete(fs, d, fs[d].entries, q);
  }

  lemma {:induction false} VisitComplete(fs: Fs, d: Path, names: seq<string>, q: Path)
    requires Valid(fs) && IsDir(fs, d)
    requires forall n :: n in names ==> n in fs[d].entries
    requires q in fs && IsStrictPrefix(d, q) && NoGitFrom(q, |d|) && q[|d|] in names
    ensures EventFor(fs, q) in Visit(fs, d, names)
    decreases Reach(fs, d), |names|
  {
    if q[|d|] != names[0] {
      VisitComplete(fs, d, names[1..], q);
    } else {
      HereComplete(fs, d, names[0], q);
    }
  }

  lemma {:induction false} HereComplete(fs: Fs, d: Path, n: string, q: Path)
    requires Valid(fs) && IsDir(fs, d) && n in fs[d].entries
    requires q in fs && IsStrictPrefix(d, q) && NoGitFrom(q, |d|) && q[|d|] == n
    ensures EventFor(fs, q) in Here(fs, d, n)
    decreases Reach(fs, d), 0
  {
    var c := d + [n];
    ChildReach(fs, d, n);
    if q == c {
      AtChild(fs, d, n);
    } else {
      BelowChild(fs, d, n, q);
      TraverseComplete(fs, c, q);
      InSubtree(fs, d, n, EventFor(fs, q));
    }
  }

  /** A listed name's own event is among its events. */
  lemma AtChild(fs: Fs, d: Path, n: string)
    requires Valid(fs) && IsDir(fs, d) && n in fs[d].entries && NoGitFrom(d + [n], |d|)
    ensures d + [n] in fs && EventFor(fs, d + [n]) in Here(fs, d, n)
  {
    assert (d + [n])[|d|] == n;
    HereShape(fs, d, n);
  }

  /** An entry strictly below a listed name lies below a directory that is not `.git`. */
  lemma BelowChild(fs: Fs, d: Path, n: string, q: Path)
    requires Valid(fs) && IsDir(fs, d) && n in fs[d].entries
    requires q in fs && IsStrictPrefix(d, q) && NoGitFrom(q, |d|) && q[|d|] == n && q != d + [n]
    ensures n != ".git" && IsDir(fs, d + [n])
    ensures IsStrictPrefix(d + [n], q) && NoGitFrom(q, |d + [n]|)
  {
    var c := d + [n];
    assert q[..|d| + 1] == c;
    ListedBelow(fs, q, c);
  }

  /** An event of a listed directory's traversal is one of the events of its name. */
  lemma InSubtree(fs: Fs, d: Path, n: string, e: Event)
    requires Valid(fs) && IsDir(fs, d) && n in fs[d].entries && n != ".git" && IsDir(fs, d + [n])
    requires e in Traverse(fs, d + [n])
    ensures e in Here(fs, d, n)
  {
    HereShape(fs, d, n);
  }

  /** The events of a listed name other than `.git`. */
  lemma HereShape(fs: Fs, d: Path, n: string)
    requires Valid(fs) && IsDir(fs, d) && n in fs[d].entries && n != ".git"
    ensures d + [n] in fs
    ensures Here(fs, d, n) == if fs[d + [n]].Dir? then Traverse(fs, d + [n]) + [DirDone(d + [n])] else [FileVisit(d + [n])]
  {
    ChildReach(fs, d, n);
  }

  /** Post-order: every event below a reported directory comes before that directory's event. */
  ghost predicate PostOrder(t: seq<Event>) {
    forall i, j :: 0 <= i < |t| && 0 <= j < |t| && t[i].DirDone? && IsStrictPrefix(t[i].path, t[j].path) ==> j < i
  }

  /** Exactly once: no two events concern the same path. */
  ghost predicate OncePerPath(t: seq<Event>) {
    forall i, j :: 0 <= i < j < |t| ==> t[i].path != t[j].path
  }

  lemma {:induction false} TraverseOrder(fs: Fs, d: Path)
    requires Valid(fs) && IsDir(fs, d)
    ensures PostOrder(Traverse(fs, d)) && OncePerPath(Traverse(fs, d))
    decreases Reach(fs, d), |fs[d].entries| + 1
  {
    VisitOrder(fs, d, fs[d].entries);
  }

  lemma {:induction false} VisitOrder(fs: Fs, d: Path, names: seq<string>)
    requires Valid(fs) && IsDir(fs, d) && Distinct(names)
    requires forall n :: n in names ==> n in fs[d].entries
    ensures PostOrder(Visit(fs, d, names)) && OncePerPath(Visit(fs, d, names))
    decreases Reach(fs, d), |names|
  {
    if names != [] {
      var n := names[0];
      var c := d + [n];
      ChildReach(fs, d, n);
      var here := Here(fs, d, n);
      var rest := Visit(fs, d, names[1..]);
      if n != ".git" && fs[c].Dir? {
        TraverseOrder(fs, c);
        ChildOrder(c, Traverse(fs, c));
      }
      VisitOrder(fs, d, names[1..]);
      forall e | e in rest
        ensures e.path[|d|] != n
      {
        assert e.path[|d|] in names[1..];
      }
      ConcatOrder(d, n, here, rest);
    }
  }

  /** A subtree's trace followed by its own directory's event keeps both properties. */
  lemma ChildOrder(c: Path, sub: seq<Event>)
    requires PostOrder(sub) && OncePerPath(sub)
    requires forall e :: e in sub ==> IsStrictPrefix(c, e.path)
    ensures PostOrder(sub + [DirDone(c)]) && OncePerPath(sub + [DirDone(c)])
  {
    var t := sub + [DirDone(c)];
    assert forall k :: 0 <= k < |sub| ==> t[k] == sub[k] && sub[k] in sub;
    assert t[|sub|] == DirDone(c);
    forall i, j | 0 <= i < |t| && 0 <= j < |t| && t[i].DirDone? && IsStrictPrefix(t[i].path, t[j].path)
      ensures j < i
    {
      if i < |sub| && j < |sub| {
        assert t[i] == sub[i] && t[j] == sub[j];
      }
    }
    forall i, j | 0 <= i < j < |t|
      ensures t[i].path != t[j].path
    {
      if j < |sub| {
        assert t[i] == sub[i] && t[j] == sub[j];
      }
    }
  }

  /** The traces of two different children of `d` can be concatenated. */
  lemma ConcatOrder(d: Path, n: string, here: seq<Event>, rest: seq<Event>)
    requires PostOrder(here) && OncePerPath(here) && PostOrder(rest) && OncePerPath(rest)
    requires forall e :: e in here ==> IsStrictPrefix(d, e.path) && e.path[|d|] == n
    requires forall e :: e in rest ==> IsStrictPrefix(d, e.path) && e.path[|d|] != n
    ensures PostOrder(here + rest) && OncePerPath(here + rest)
  {
    var t := here + rest;
    assert forall k :: 0 <= k < |here| ==> t[k] == here[k] && here[k] in here;
    assert forall k :: |here| <= k < |t| ==> t[k] == rest[k - |here|] && rest[k - |here|] in rest;
    forall i, j | 0 <= i < |t| && 0 <= j < |t| && t[i].DirDone? && IsStrictPrefix(t[i].path, t[j].path)
      ensures j < i
    {
      assert t[j].path[|d|] == t[i].path[|d|];
      if i < |here| && j < |here| {
        assert t[i] == here[i] && t[j] == here[j];
      } else if i >= |here| && j >= |here| {
        assert t[i] == rest[i - |here|] && t[j] == rest[j - |here|];
      }
    }
    forall i, j | 0 <= i < j < |t|
      ensures t[i].path != t[j].path
    {
      if j < |here| {
        assert t[i] == here[i] && t[j] == here[j];
      } else if i >= |here| {
        assert t[i] == rest[i - |here|] && t[j] == rest[j - |here|];
      }
    }
  }

  /** In `t`, every event under the name `x` of `d` comes before every event under the name `y`. */
  ghost predicate Before(t: seq<Event>, d: Path, x: string, y: string) {
    forall i, j ::
      (0 <= i < |t| && 0 <= j < |t| && IsStrictPrefix(d, t[i].path) && IsStrictPrefix(d, t[j].path)
       && t[i].path[|d|] == x && t[j].path[|d|] == y) ==> i < j
  }

  /**
    Siblings are handled in `readdirSync` order: for two names of the
    listing, every callback under the earlier one precedes every callback
    under the later one.
  */
  lemma TraverseListingOrder(fs: Fs, d: Path, a: int, b: int)
    requires Valid(fs) && IsDir(fs, d) && 0 <= a < b < |fs[d].entries|
    ensures Before(Traverse(fs, d), d, fs[d].entries[a], fs[d].entries[b])
  {
    VisitListingOrder(fs, d, fs[d].entries, a, b);
  }

  lemma {:induction false} VisitListingOrder(fs: Fs, d: Path, names: seq<string>, a: int, b: int)
    requires Valid(fs) && IsDir(fs, d) && Distinct(names)
    requires forall n :: n in names ==> n in fs[d].entries
    requires 0 <= a < b < |names|
    ensures Before(Visit(fs, d, names), d, names[a], names[b])
    decreases |names|
  {
    var here := Here(fs, d, names[0]);
    var tail := names[1..];
    var rest := Visit(fs, d, tail);
    assert Visit(fs, d, names) == here + rest;
    assert names[0] !in tail;
    if a == 0 {
      assert names[b] == tail[b - 1];
      BeforeFirst(here, rest, d, names[0], names[b]);
    } else {
      assert tail[a - 1] == names[a] && tail[b - 1] == names[b];
      VisitListingOrder(fs, d, tail, a - 1, b - 1);
      BeforeRest(here, rest, d, names[a], names[b]);
    }
  }

  /** The events of `x` followed by events of other names: `x` comes before any other name. */
  lemma BeforeFirst(here: seq<Event>, rest: seq<Event>, d: Path, x: string, y: string)
    requires x != y
    requires forall e :: e in here ==> IsStrictPrefix(d, e.path) && e.path[|d|] == x
    requires forall e :: e in rest ==> IsStrictPrefix(d, e.path) && e.path[|d|] != x
    ensures Before(here + rest, d, x, y)
  {
    var t := here + rest;
    assert forall k :: 0 <= k < |here| ==> t[k] == here[k] && here[k] in here;
    assert forall k :: |here| <= k < |t| ==> t[k] == rest[k - |here|] && rest[k - |here|] in rest;
  }

  /** Events of a third name put in front keep the order of `x` and `y`. */
  lemma BeforeRest(here: seq<Event>, rest: seq<Event>, d: Path, x: string, y: string)
    requires forall e :: e in here ==> IsStrictPrefix(d, e.path) && e.path[|d|] != x && e.path[|d|] != y
    requires Before(rest, d, x, y)
    ensures Before(here + rest, d, x, y)
  {
    var t := here + rest;
    assert forall k :: 0 <= k < |here| ==> t[k] == here[k] && here[k] in here;
    assert forall k :: |here| <= k < |t| ==> t[k] == rest[k - |here|];
    forall i, j | 0 <= i < |t| && 0 <= j < |t| && IsStrictPrefix(d, t[i].path) && IsStrictPrefix(d, t[j].path)
      && t[i].path[|d|] == x && t[j].path[|d|] == y
      ensures i < j
    {
      assert rest[i - |here|] == t[i] && rest[j - |here|] == t[j];
    }
  }
}
