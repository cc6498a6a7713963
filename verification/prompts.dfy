/**
  `runPrompt` and the `ask*` helpers: how the command-line flags and the
  user's answers decide the project to create.

  Each helper first tries to decide from the flags alone; only when they
  leave the question open does it show a prompt. The interactive prompt is
  an oracle here: the caller passes the `Reply` the user would give, and a
  cancelled prompt (or the `'cancel'` choice) ends the process, which the
  model records as `Exited` rather than as a value. Absent flags are
  `false`.
*/
module Prompts {
  import opened Wrappers
  import opened Strings
  import opened PackageName
  import Plans

  /** What the user does at a prompt: answer, or cancel it (Ctrl-C). */
  datatype Reply<+T> = Answer(value: T) | Cancelled

  /**
    How a question was settled: from the flags without a prompt, by the
    user's answer, or not at all because the process exited.
  */
  datatype Outcome<+T> = Decided(value: T) | Asked(value: T) | Exited {
    predicate Yields() { !Exited? }
  }

  datatype ProjectType = App | Lib | Monorepo | MonorepoApp | MonorepoLib {
    /** The value the select prompt and the rest of the program use. */
    function Name(): string {
      match this
      case App => "app"
      case Lib => "lib"
      case Monorepo => "monorepo"
      case MonorepoApp => "monorepo-app"
      case MonorepoLib => "monorepo-lib"
    }

    /** A project added to an existing monorepo. */
    predicate IsMember() { MonorepoApp? || MonorepoLib? }
  }

  // ---------------------------------------------------------------------
  // Text prompts re-ask until the answer passes validation.

  /** Some attempt ends the prompt: it is cancelled or its text is valid. */
  predicate Settles(attempts: seq<Reply<string>>, valid: string -> bool) {
    exists i :: 0 <= i < |attempts| && Ends(attempts[i], valid)
  }

  predicate Ends(a: Reply<string>, valid: string -> bool) {
    a.Cancelled? || valid(a.value)
  }

  /** Attempt `k` is the first that ends the prompt. */
  predicate FirstEndsAt(attempts: seq<Reply<string>>, valid: string -> bool, k: int) {
    0 <= k < |attempts| && Ends(attempts[k], valid) && forall j :: 0 <= j < k ==> !Ends(attempts[j], valid)
  }

  /** The attempt that ends a text prompt: the first that is cancelled or valid. */
  function Settle(attempts: seq<Reply<string>>, valid: string -> bool): (r: Reply<string>)
    requires Settles(attempts, valid)
    ensures Ends(r, valid)
    ensures exists k :: FirstEndsAt(attempts, valid, k) && attempts[k] == r
  {
    if Ends(attempts[0], valid) then
      assert FirstEndsAt(attempts, valid, 0);
      attempts[0]
    else
      var rest := attempts[1..];
      assert Settles(rest, valid) by {
        var i :| 0 <= i < |attempts| && Ends(attempts[i], valid);
        assert i > 0 && rest[i - 1] == attempts[i];
      }
      var r := Settle(rest, valid);
      assert exists k :: FirstEndsAt(attempts, valid, k) && attempts[k] == r by {
        var k :| FirstEndsAt(rest, valid, k) && rest[k] == r;
        forall j | 0 <= j < k + 1 ensures !Ends(attempts[j], valid) {
          if j > 0 { assert attempts[j] == rest[j - 1]; }
        }
        assert FirstEndsAt(attempts, valid, k + 1) && attempts[k + 1] == r;
      }
      r
  }

  /** A text prompt: its value, or `Exited` when it is cancelled. */
  function TextPrompt(attempts: seq<Reply<string>>, valid: string -> bool): (r: Outcome<string>)
    requires Settles(attempts, valid)
    ensures r.Exited? || (r.Asked? && valid(r.value))
  {
    var a := Settle(attempts, valid);
    if a.Cancelled? then Exited else Asked(a.value)
  }

  predicate NonEmpty(s: string) { s != "" }

  // ---------------------------------------------------------------------
  // The questions.

  /**
    The project directory: the trimmed argument when that is not empty,
    otherwise the answer to a text prompt that refuses the empty string.
    The answer is used as typed, without trimming.
  */
  function AskProjectDir(projectDir: string, attempts: seq<Reply<string>>): (r: Outcome<string>)
    requires Trim(projectDir) == [] ==> Settles(attempts, NonEmpty)
    ensures Trim(projectDir) != [] ==> r == Decided(Trim(projectDir))
    ensures Trim(projectDir) == [] ==> r.Exited? || r.Asked?
    ensures r.Yields() ==> r.value != []
  {
    var trimmed := Trim(projectDir);
    if trimmed != [] then Decided(trimmed) else TextPrompt(attempts, NonEmpty)
  }

  /** The choices of the existing-project prompt. */
  datatype ExistingChoice = CancelChoice | InjectChoice | ForceChoice

  /**
    What to do with the target directory. A directory that can be used as
    it is gives `Skip` whatever the flags say; otherwise `force` wins over
    `inject`; with neither, the user chooses, and choosing Cancel exits.
  */
  function AskExistingProject(canSkipEmptying: bool, force: bool, inject: bool,
                              reply: Reply<ExistingChoice>): (r: Outcome<Plans.ExistingProject>)
    ensures canSkipEmptying ==> r == Decided(Plans.Skip)
    ensures !canSkipEmptying && force ==> r == Decided(Plans.Force)
    ensures !canSkipEmptying && !force && inject ==> r == Decided(Plans.Inject)
    ensures r.Yields() && r.value == Plans.Skip <==> canSkipEmptying
    ensures r.Exited? <==> !canSkipEmptying && !force && !inject && reply in {Cancelled, Answer(CancelChoice)}
    ensures r.Asked? ==> reply == Answer(if r.value == Plans.Force then ForceChoice else InjectChoice)
  {
    if canSkipEmptying then Decided(Plans.Skip)
    else if force then Decided(Plans.Force)
    else if inject then Decided(Plans.Inject)
    else
      match reply
      case Cancelled => Exited
      case Answer(CancelChoice) => Exited
      case Answer(InjectChoice) => Asked(Plans.Inject)
      case Answer(ForceChoice) => Asked(Plans.Force)
  }

  /** The text the package-name prompt starts from: the directory name, normalised. */
  function InitialPackageName(projectDir: string): (r: Option<string>)
    ensures r.Some? <==> projectDir != []
    ensures r.Some? ==> forall i :: 0 <= i < |r.value| ==> IsNameStart(r.value[i])
    ensures r.Some? ==> r.value == ToValidPackageName(r.value)
  {
    if projectDir != [] then
      NormaliseIdempotent(projectDir);
      Some(ToValidPackageName(projectDir))
    else None
  }

  /** The package name: a text prompt that accepts only valid names. */
  function AskPackageName(attempts: seq<Reply<string>>): (r: Outcome<string>)
    requires Settles(attempts, IsValidPackageName)
    ensures r.Exited? || r.Asked?
    ensures r.Yields() ==> IsValidPackageName(r.value)
  {
    TextPrompt(attempts, IsValidPackageName)
  }

  /** The project type: the `lib`, `app` and `monorepo` flags in that order, else the user's choice. */
  function AskProjectType(lib: bool, app: bool, monorepo: bool, reply: Reply<ProjectType>): (r: Outcome<ProjectType>)
    ensures lib ==> r == Decided(Lib)
    ensures !lib && app ==> r == Decided(App)
    ensures !lib && !app && monorepo ==> r == Decided(Monorepo)
    ensures r.Decided? <==> lib || app || monorepo
    ensures r.Decided? ==> r.value in {Lib, App, Monorepo}
    ensures r.Exited? <==> !lib && !app && !monorepo && reply.Cancelled?
    ensures r.Asked? ==> reply == Answer(r.value)
  {
    if lib then Decided(Lib)
    else if app then Decided(App)
    else if monorepo then Decided(Monorepo)
    else if reply.Cancelled? then Exited
    else Asked(reply.value)
  }

  /** A yes/no prompt: the answer, or `Exited` when it is cancelled. */
  function Confirm(reply: Reply<bool>): (r: Outcome<bool>)
    ensures r.Exited? <==> reply.Cancelled?
    ensures r.Asked? ==> reply == Answer(r.value)
    ensures !r.Decided?
  {
    if reply.Cancelled? then Exited else Asked(reply.value)
  }

  /**
    Whether to add Changesets: yes with the flag or for a monorepo, no
    for a project added to a monorepo, else the user's answer.
  */
  function AskChangesets(changesets: bool, projectType: ProjectType, reply: Reply<bool>): (r: Outcome<bool>)
    ensures changesets || projectType == Monorepo ==> r == Decided(true)
    ensures !changesets && projectType.IsMember() ==> r == Decided(false)
    ensures r.Decided? <==> changesets || projectType == Monorepo || projectType.IsMember()
    ensures r.Exited? <==> !r.Decided? && reply.Cancelled?
  {
    if changesets || projectType == Monorepo then Decided(true)
    else if projectType.IsMember() then Decided(false)
    else Confirm(reply)
  }

  /**
    The rule `askInitGit` and `askActions` share: the flag says yes even
    for a project added to a monorepo; otherwise such a project says no,
    and any other asks the user.
  */
  function FlagOrMemberOrAsk(flag: bool, projectType: ProjectType, reply: Reply<bool>): (r: Outcome<bool>)
    ensures flag ==> r == Decided(true)
    ensures !flag && projectType.IsMember() ==> r == Decided(false)
    ensures r.Decided? <==> flag || projectType.IsMember()
    ensures r.Exited? <==> !r.Decided? && reply.Cancelled?
    ensures r.Asked? ==> reply == Answer(r.value)
  {
    if flag then Decided(true)
    else if projectType.IsMember() then Decided(false)
    else Confirm(reply)
  }

  /** Whether to initialise a git repository. */
  function AskInitGit(git: bool, projectType: ProjectType, reply: Reply<bool>): (r: Outcome<bool>)
    ensures r.Decided? <==> git || projectType.IsMember()
    ensures r.Decided? ==> r.value == git
    ensures r.Exited? <==> !r.Decided? && reply.Cancelled?
  {
    FlagOrMemberOrAsk(git, projectType, reply)
  }

  /** Whether to add GitHub Actions workflows. */
  function AskActions(actions: bool, projectType: ProjectType, reply: Reply<bool>): (r: Outcome<bool>)
    ensures r.Decided? <==> actions || projectType.IsMember()
    ensures r.Decided? ==> r.value == actions
    ensures r.Exited? <==> !r.Decided? && reply.Cancelled?
  {
    FlagOrMemberOrAsk(actions, projectType, reply)
  }

  /** Whether to install dependencies: never for a project added to a monorepo. */
  function AskInstallDeps(projectType: ProjectType, reply: Reply<bool>): (r: Outcome<bool>)
    ensures projectType.IsMember() ==> r == Decided(false)
    ensures !projectType.IsMember() ==> r == Confirm(reply)
    ensures r.Yields() && r.value ==> !projectType.IsMember() && reply == Answer(true)
  {
    if projectType.IsMember() then Decided(false) else Confirm(reply)
  }

  /** Whether to install pnpm when it is missing: declining exits, since pnpm is required. */
  function AskInstallPnpm(reply: Reply<bool>): (r: Outcome<bool>)
    ensures r.Yields() ==> r == Asked(true)
    ensures r.Exited? <==> reply != Answer(true)
  {
    if reply.Cancelled? || !reply.value then Exited else Asked(true)
  }

  // ---------------------------------------------------------------------
  // The whole conversation.

  datatype Flags = Flags(projectDir: string, app: bool, lib: bool, monorepo: bool, force: bool,
                         inject: bool, changesets: bool, git: bool, actions: bool)

  /** What the user would answer at each prompt, were it shown. */
  datatype Replies = Replies(projectDir: seq<Reply<string>>, existingProject: Reply<ExistingChoice>,
                             packageName: seq<Reply<string>>, projectType: Reply<ProjectType>,
                             changesets: Reply<bool>, git: Reply<bool>, actions: Reply<bool>)

  datatype Answers = Answers(projectDir: string, existingProject: Plans.ExistingProject,
                             packageName: string, projectType: ProjectType,
                             initChangesets: bool, initGit: bool, initActions: bool)

  /** The text prompts of a run can end: a replied sequence settles. */
  predicate CanSettle(flags: Flags, replies: Replies) {
    (Trim(flags.projectDir) == [] ==> Settles(replies.projectDir, NonEmpty))
    && Settles(replies.packageName, IsValidPackageName)
  }

  /**
    The questions in order: directory, existing project, package name,
    type, Changesets, git, Actions. `canSkipEmptying` says whether a
    directory can be used as it is. `None` when the process exited.
  */
  function RunPrompt(flags: Flags, canSkipEmptying: string -> bool, replies: Replies): (r: Option<Answers>)
    requires CanSettle(flags, replies)
    ensures r.Some? ==> r.value.projectDir != [] && IsValidPackageName(r.value.packageName)
    ensures r.Some? ==> (r.value.existingProject == Plans.Skip <==> canSkipEmptying(r.value.projectDir))
    ensures r.Some? && r.value.projectType == Monorepo ==> r.value.initChangesets
    ensures r.Some? && r.value.projectType.IsMember() ==>
      r.value.initChangesets == flags.changesets && r.value.initGit == flags.git && r.value.initActions == flags.actions
  {
    var dir := AskProjectDir(flags.projectDir, replies.projectDir);
    if dir.Exited? then None else
    var existing := AskExistingProject(canSkipEmptying(dir.value), flags.force, flags.inject, replies.existingProject);
    if existing.Exited? then None else
    var name := AskPackageName(replies.packageName);
    if name.Exited? then None else
    var kind := AskProjectType(flags.lib, flags.app, flags.monorepo, replies.projectType);
    if kind.Exited? then None else
    var changesets := AskChangesets(flags.changesets, kind.value, replies.changesets);
    if changesets.Exited? then None else
    var git := AskInitGit(flags.git, kind.value, replies.git);
    if git.Exited? then None else
    var actions := AskActions(flags.actions, kind.value, replies.actions);
    if actions.Exited? then None else
    Some(Answers(dir.value, existing.value, name.value, kind.value, changesets.value, git.value, actions.value))
  }

  // ---------------------------------------------------------------------
  // Properties of the conversation.

  /** Cancelling the package-name prompt ends the run with no answers, whatever the flags. */
  lemma CancelledNameExits(flags: Flags, canSkipEmptying: string -> bool, replies: Replies)
    requires CanSettle(flags, replies)
    requires |replies.packageName| > 0 && replies.packageName[0] == Cancelled
    ensures RunPrompt(flags, canSkipEmptying, replies) == None
  {
    assert Settle(replies.packageName, IsValidPackageName) == Cancelled;
  }

  /** Choosing Cancel at the existing-project prompt ends the run with no answers. */
  lemma CancelChoiceExits(flags: Flags, canSkipEmptying: string -> bool, replies: Replies)
    requires CanSettle(flags, replies)
    requires Trim(flags.projectDir) != [] && !canSkipEmptying(Trim(flags.projectDir))
    requires !flags.force && !flags.inject && replies.existingProject == Answer(CancelChoice)
    ensures RunPrompt(flags, canSkipEmptying, replies) == None
  {
  }

  /**
    With a directory argument, a usable or forced directory and every
    question answered by flags, the package name is the only question:
    the replies to the other prompts make no difference.
  */
  lemma FlagsAnswerAllButName(flags: Flags, canSkipEmptying: string -> bool, replies: Replies, other: Replies)
    requires CanSettle(flags, replies)
    requires Trim(flags.projectDir) != [] && (canSkipEmptying(Trim(flags.projectDir)) || flags.force || flags.inject)
    requires flags.lib || flags.app || flags.monorepo
    requires flags.changesets && flags.git && flags.actions
    requires other.packageName == replies.packageName
    ensures CanSettle(flags, other)
    ensures RunPrompt(flags, canSkipEmptying, replies) == RunPrompt(flags, canSkipEmptying, other)
    ensures RunPrompt(flags, canSkipEmptying, replies).Some?
      <==> Settle(replies.packageName, IsValidPackageName).Answer?
  {
    FlagsDecide(flags, canSkipEmptying, replies);
    FlagsDecide(flags, canSkipEmptying, other);
  }

  /** With every question but the name answered by flags, a run is the name prompt alone. */
  lemma FlagsDecide(flags: Flags, canSkipEmptying: string -> bool, replies: Replies)
    requires CanSettle(flags, replies)
    requires Trim(flags.projectDir) != [] && (canSkipEmptying(Trim(flags.projectDir)) || flags.force || flags.inject)
    requires flags.lib || flags.app || flags.monorepo
    requires flags.changesets && flags.git && flags.actions
    ensures var dir := Trim(flags.projectDir);
      var existing := if canSkipEmptying(dir) then Plans.Skip else if flags.force then Plans.Force else Plans.Inject;
      var kind := if flags.lib then Lib else if flags.app then App else Monorepo;
      var name := Settle(replies.packageName, IsValidPackageName);
      RunPrompt(flags, canSkipEmptying, replies)
        == if name.Cancelled? then None else Some(Answers(dir, existing, name.value, kind, true, true, true))
  {
    var kind := if flags.lib then Lib else if flags.app then App else Monorepo;
    assert AskProjectType(flags.lib, flags.app, flags.monorepo, replies.projectType) == Decided(kind);
    assert AskChangesets(true, kind, replies.changesets) == Decided(true);
    assert AskInitGit(true, kind, replies.git) == Decided(true);
    assert AskActions(true, kind, replies.actions) == Decided(true);
  }

  /** The name the package prompt starts from need not be valid: for the directory `.` it is empty. */
  lemma InitialNameMayBeInvalid()
    ensures InitialPackageName(".") == Some("")
    ensures !IsValidPackageName("")
  {
    NormaliseCanBeEmpty();
  }
}
