/**
  The package-name rules of the command line: `isValidPackageName`, the
  regular expression
    ^(?:@[a-z0-9-*~][a-z0-9-*._~]*\/)?[a-z0-9-~][a-z0-9-._~]*$
  run as a character-class automaton, and `toValidPackageName`, the
  normaliser the prompt suggests when a directory name is not a valid
  package name. White space and letter case are ASCII only.
*/
module PackageName {
  import opened Strings

  // ---------------------------------------------------------------------
  // The character classes of the expression.

  /** `[a-z0-9-~]`: what may start a name, and all `toValidPackageName` keeps. */
  predicate IsNameStart(c: char) {
    IsLowerAsciiLetter(c) || IsAsciiDigit(c) || c == '-' || c == '~'
  }

  /** `[a-z0-9-._~]`. */
  predicate IsNameChar(c: char) {
    IsNameStart(c) || c == '.' || c == '_'
  }

  /** `[a-z0-9-*~]`: what may start a scope. */
  predicate IsScopeStart(c: char) {
    IsNameStart(c) || c == '*'
  }

  /** `[a-z0-9-*._~]`. */
  predicate IsScopeChar(c: char) {
    IsNameChar(c) || c == '*'
  }

  // ---------------------------------------------------------------------
  // The language of the expression, stated declaratively.

  /** `[a-z0-9-~][a-z0-9-._~]*` */
  predicate IsUnscopedName(s: string) {
    |s| >= 1 && IsNameStart(s[0]) && forall i :: 1 <= i < |s| ==> IsNameChar(s[i])
  }

  /** `@[a-z0-9-*~][a-z0-9-*._~]*` */
  predicate IsScope(s: string) {
    |s| >= 2 && s[0] == '@' && IsScopeStart(s[1]) && forall i :: 2 <= i < |s| ==> IsScopeChar(s[i])
  }

  /** The whole expression: an unscoped name, optionally behind a scope and a `/`. */
  ghost predicate MatchesPattern(s: string) {
    || IsUnscopedName(s)
    || exists k :: 0 <= k < |s| && s[k] == '/' && IsScope(s[..k]) && IsUnscopedName(s[k + 1..])
  }

  // ---------------------------------------------------------------------
  // The recogniser.

  datatype State = Start | ScopeFirst | InScope | NameFirst | InName | Reject

  function Delta(q: State, c: char): State {
    match q
    case Start => if c == '@' then ScopeFirst else if IsNameStart(c) then InName else Reject
    case ScopeFirst => if IsScopeStart(c) then InScope else Reject
    case InScope => if c == '/' then NameFirst else if IsScopeChar(c) then InScope else Reject
    case NameFirst => if IsNameStart(c) then InName else Reject
    case InName => if IsNameChar(c) then InName else Reject
    case Reject => Reject
  }

  function Run(q: State, s: string): State
    decreases |s|
  {
    if s == [] then q else Run(Delta(q, s[0]), s[1..])
  }

  /** `isValidPackageName(projectName)`. */
  function IsValidPackageName(s: string): bool {
    Run(Start, s) == InName
  }

  lemma {:induction false} RejectStays(s: string)
    ensures Run(Reject, s) == Reject
    decreases |s|
  {
    if s != [] {
      RejectStays(s[1..]);
    }
  }

  /** Inside a name, the rest is accepted exactly when every character is a name character. */
  lemma {:induction false} RunInName(s: string)
    ensures Run(InName, s) == InName <==> forall i :: 0 <= i < |s| ==> IsNameChar(s[i])
    decreases |s|
  {
    if s != [] {
      RunInName(s[1..]);
      RejectStays(s[1..]);
      assert forall i :: 1 <= i < |s| ==> s[i] == s[1..][i - 1];
    }
  }

  /** At the start of a name, the rest is accepted exactly when it is an unscoped name. */
  lemma RunNameFirst(s: string)
    ensures Run(NameFirst, s) == InName <==> IsUnscopedName(s)
  {
    if s != [] {
      RunInName(s[1..]);
      RejectStays(s[1..]);
      assert forall i :: 1 <= i < |s| ==> s[i] == s[1..][i - 1];
    }
  }

  /** Inside a scope, the rest is accepted exactly when it is scope characters, `/`, and an unscoped name. */
  lemma {:induction false} RunInScope(s: string)
    ensures Run(InScope, s) == InName <==>
      exists k :: 0 <= k < |s| && s[k] == '/' && (forall i :: 0 <= i < k ==> IsScopeChar(s[i])) && IsUnscopedName(s[k + 1..])
    decreases |s|
  {
    if s == [] {
    } else if s[0] == '/' {
      RunNameFirst(s[1..]);
      if IsUnscopedName(s[1..]) {
        assert s[0] == '/' && IsUnscopedName(s[0 + 1..]);
      }
      forall k | 0 < k < |s| && s[k] == '/'
        ensures !forall i :: 0 <= i < k ==> IsScopeChar(s[i])
      {
        assert !IsScopeChar(s[0]);
      }
    } else if IsScopeChar(s[0]) {
      RunInScope(s[1..]);
      var t := s[1..];
      if Run(InScope, t) == InName {
        var k :| 0 <= k < |t| && t[k] == '/' && (forall i :: 0 <= i < k ==> IsScopeChar(t[i])) && IsUnscopedName(t[k + 1..]);
        assert s[k + 1] == '/' && s[k + 2..] == t[k + 1..];
        assert forall i :: 0 <= i < k + 1 ==> IsScopeChar(s[i]) by {
          assert forall i :: 1 <= i < k + 1 ==> s[i] == t[i - 1];
        }
      }
      forall k | 0 <= k < |s| && s[k] == '/' && (forall i :: 0 <= i < k ==> IsScopeChar(s[i])) && IsUnscopedName(s[k + 1..])
        ensures Run(InScope, t) == InName
      {
        assert k != 0;
        assert t[k - 1] == '/' && t[k - 1 + 1..] == s[k + 1..];
        assert forall i :: 0 <= i < k - 1 ==> t[i] == s[i + 1];
      }
    } else {
      RejectStays(s[1..]);
      forall k | 0 <= k < |s| && s[k] == '/'
        ensures !forall i :: 0 <= i < k ==> IsScopeChar(s[i])
      {
        assert k != 0;
      }
    }
  }

  /** A scope followed by `/` is the `@`, a scope start, and the automaton's `InScope` language. */
  lemma ScopedSplit(s: string)
    requires |s| >= 2 && s[0] == '@' && IsScopeStart(s[1])
    ensures (exists k :: 0 <= k < |s| && s[k] == '/' && IsScope(s[..k]) && IsUnscopedName(s[k + 1..])) <==>
      Run(InScope, s[2..]) == InName
  {
    var t := s[2..];
    RunInScope(t);
    if Run(InScope, t) == InName {
      var k :| 0 <= k < |t| && t[k] == '/' && (forall i :: 0 <= i < k ==> IsScopeChar(t[i])) && IsUnscopedName(t[k + 1..]);
      assert s[k + 2] == '/' && s[k + 2 + 1..] == t[k + 1..];
      var sc := s[..k + 2];
      assert forall i :: 2 <= i < |sc| ==> sc[i] == t[i - 2];
      assert IsScope(s[..k + 2]);
    }
    forall k | 0 <= k < |s| && s[k] == '/' && IsScope(s[..k]) && IsUnscopedName(s[k + 1..])
      ensures Run(InScope, t) == InName
    {
      assert k >= 2 && t[k - 2] == '/' && t[k - 2 + 1..] == s[k + 1..];
      assert forall i :: 0 <= i < k - 2 ==> t[i] == s[..k][i + 2];
    }
  }

  /** The recogniser accepts exactly the language of the expression. */
  lemma IsValidPackageNameMatches(s: string)
    ensures IsValidPackageName(s) <==> MatchesPattern(s)
  {
    if s == [] {
    } else if s[0] == '@' {
      assert !IsUnscopedName(s);
      if |s| == 1 {
        assert s[1..] == [];
        assert Run(Start, s) == ScopeFirst;
        forall k | 0 <= k < |s|
          ensures s[k] != '/'
        {
          assert k == 0;
        }
      } else {
        assert s[1..][1..] == s[2..];
        assert Run(Start, s) == Run(ScopeFirst, s[1..]);
        assert Run(ScopeFirst, s[1..]) == Run(Delta(ScopeFirst, s[1]), s[2..]);
        if IsScopeStart(s[1]) {
          ScopedSplit(s);
        } else {
          RejectStays(s[2..]);
          forall k | 0 <= k < |s| && s[k] == '/'
            ensures !IsScope(s[..k])
          {
          }
        }
      }
    } else {
      RunNameFirst(s);
      assert Run(Start, s) == Run(NameFirst, s);
      forall k | 0 <= k < |s|
        ensures !IsScope(s[..k])
      {
      }
    }
  }

  // ---------------------------------------------------------------------
  // The normaliser.

  /** The leading run of characters satisfying `p`, dropped. */
  function DropRun(s: string, p: char -> bool): (r: string)
    ensures |r| <= |s| && r == s[|s| - |r|..]
    ensures r == [] || !p(r[0])
    ensures forall i :: 0 <= i < |s| - |r| ==> p(s[i])
    decreases |s|
  {
    if s != [] && p(s[0]) then DropRun(s[1..], p) else s
  }

  /** `s.replace(/[class]+/g, '-')`: every maximal run of characters satisfying `p` becomes one `-`. */
  function ReplaceRuns(s: string, p: char -> bool): (r: string)
    ensures forall i :: 0 <= i < |r| ==> r[i] == '-' || (r[i] in s && !p(r[i]))
    decreases |s|
  {
    if s == [] then []
    else if p(s[0]) then
      var rest := DropRun(s, p);
      "-" + ReplaceRuns(rest, p)
    else
      [s[0]] + ReplaceRuns(s[1..], p)
  }

  /** `s.replace(/^[._]/, '')`: at most one character goes, and only a leading `.` or `_`. */
  function DropLeadingDotOrUnderscore(s: string): (r: string)
    ensures |s| - 1 <= |r| <= |s| && r == s[|s| - |r|..]
    ensures |r| < |s| <==> s != [] && (s[0] == '.' || s[0] == '_')
  {
    if s != [] && (s[0] == '.' || s[0] == '_') then s[1..] else s
  }

  predicate NotNameStart(c: char) {
    !IsNameStart(c)
  }

  /** `toValidPackageName(projectName)`. */
  function ToValidPackageName(s: string): (r: string)
    ensures forall i :: 0 <= i < |r| ==> IsNameStart(r[i])
  {
    var spaced := ReplaceRuns(ToLower(Trim(s)), IsAsciiSpace);
    ReplaceRuns(DropLeadingDotOrUnderscore(spaced), NotNameStart)
  }

  /** Every non-empty normalised name is a valid package name. */
  lemma NormalisedIsValid(s: string)
    requires ToValidPackageName(s) != []
    ensures IsValidPackageName(ToValidPackageName(s))
  {
    var r := ToValidPackageName(s);
    IsValidPackageNameMatches(r);
    assert IsUnscopedName(r);
  }

  /** Replacing runs of a class that does not occur changes nothing. */
  lemma {:induction false} ReplaceRunsAbsent(s: string, p: char -> bool)
    requires forall i :: 0 <= i < |s| ==> !p(s[i])
    ensures ReplaceRuns(s, p) == s
    decreases |s|
  {
    if s != [] {
      ReplaceRunsAbsent(s[1..], p);
    }
  }

  lemma TrimNoSpace(s: string)
    requires forall i :: 0 <= i < |s| ==> !IsAsciiSpace(s[i])
    ensures Trim(s) == s
  {
    assert TrimStart(s) == s;
  }

  /** A string of name-start characters only is left as it is. */
  lemma NormaliseFixesNameStarts(s: string)
    requires forall i :: 0 <= i < |s| ==> IsNameStart(s[i])
    ensures ToValidPackageName(s) == s
  {
    SpacingFixesNameStarts(s);
    DropFixesNameStarts(s);
    ReplaceRunsAbsent(s, NotNameStart);
  }

  lemma DropFixesNameStarts(s: string)
    requires forall i :: 0 <= i < |s| ==> IsNameStart(s[i])
    ensures DropLeadingDotOrUnderscore(s) == s
  {
    if s != [] {
      assert IsNameStart(s[0]);
    }
  }

  lemma SpacingFixesNameStarts(s: string)
    requires forall i :: 0 <= i < |s| ==> IsNameStart(s[i])
    ensures ReplaceRuns(ToLower(Trim(s)), IsAsciiSpace) == s
  {
    CaseAndTrimFixNameStarts(s);
    NoSpaceInNameStarts(s);
    ReplaceRunsAbsent(s, IsAsciiSpace);
  }

  lemma NoSpaceInNameStarts(s: string)
    requires forall i :: 0 <= i < |s| ==> IsNameStart(s[i])
    ensures forall i :: 0 <= i < |s| ==> !IsAsciiSpace(s[i]) && !('A' <= s[i] <= 'Z')
  {
  }

  lemma CaseAndTrimFixNameStarts(s: string)
    requires forall i :: 0 <= i < |s| ==> IsNameStart(s[i])
    ensures ToLower(Trim(s)) == s
  {
    NoSpaceInNameStarts(s);
    TrimNoSpace(s);
    LowerNoUpper(s);
  }

  lemma LowerNoUpper(s: string)
    requires forall i :: 0 <= i < |s| ==> !('A' <= s[i] <= 'Z')
    ensures ToLower(s) == s
  {
    var l := ToLower(s);
    assert |l| == |s|;
    forall i | 0 <= i < |s|
      ensures l[i] == s[i]
    {
      assert l[i] == LowerChar(s[i]);
    }
  }

  /** Normalising twice is normalising once. */
  lemma NormaliseIdempotent(s: string)
    ensures ToValidPackageName(ToValidPackageName(s)) == ToValidPackageName(s)
  {
    NormaliseFixesNameStarts(ToValidPackageName(s));
  }

  /** The normaliser can produce the empty name, which is not valid: a lone `.` is dropped. */
  lemma NormaliseCanBeEmpty()
    ensures ToValidPackageName(".") == [] && !IsValidPackageName([])
  {
    assert Trim(".") == ".";
    assert ToLower(".") == ".";
    ReplaceRunsAbsent(".", IsAsciiSpace);
  }
}
