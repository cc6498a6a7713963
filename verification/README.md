# crane template engine, in Dafny

A model of the core of `crane`, a command-line tool that scaffolds
TypeScript projects, with proofs about that model.

`crane` copies template folders into a destination directory. It merges
and re-sorts colliding `package.json` files, renames `_x` files to `.x`,
appends to an existing `.gitignore`, and clears a non-empty target
directory (leaving `.git` alone). It validates and normalises package
names, picks dependency versions from its own manifest, chooses the
package manager and writes a README skeleton. A handful of prompts decide
what to do, and flags can pre-empt each prompt.

The modules follow the source files:

- `Wrappers`, `Strings`: `Option`/`Result`, and ASCII string helpers. `Strings.Below` is code-point order, which agrees with the UTF-16 order of `Array.prototype.sort` on the ASCII strings modelled.
- `AssocList`, `Json`: JSON objects as insertion-ordered association lists.
  - Assigning a property is `Put`: an existing key keeps its position, a new key goes last.
  - Object spread is `Assign`.
  - `Json.OwnEntries` is what `Object.keys` / `v[k]` see: object fields, array indices and string indices.
- `ManifestSort`: `sortProperties` (five groups, including `scripts`) and `sortDependencies` (the four dependency groups).
- `Curation`: `generateDependencies` and the `dependenciesByTemplate` table.
- `Files`: the destination file system, a map from paths to `Dir(listing)`, `File(content)` or `Link` nodes, with the `node:fs` calls the engine makes.
- `TemplateRender`: `renderTemplate`, current and legacy. They differ only in the sorter applied to a merged manifest.
  - `JSON.parse`, `JSON.stringify` and `deepMerge` are function-valued parameters (`Codec`).
- `PostOrderTraverse`: `postOrderDirectoryTraverse`, as the trace of callbacks it makes.
- `EmptyDirectory`: `emptyDir`, which runs that trace with `rmdirSync`/`unlinkSync`, and `canSkipEmptying`.
- `PackageName`: `isValidPackageName` (a recogniser proved equal to the regular expression) and `toValidPackageName`.
- `Plans`: the renderers as step lists (seed manifest, render template, make folder), run on the file system by `Execute`.
- `UserAgent`, `Readme`: `getUserAgent` and `generateReadme`. `getCommand` is a parameter.
- `Prompts`: the decision rules of `runPrompt`.
  - Each prompt's answer comes from an oracle (`Reply`: an answer or a cancellation).
  - Each step's `Outcome` is decided by a flag, asked, or exited.

Two places where the code and its surroundings disagree are modelled as the code is written:

- `generateDependencies` inserts keys in the wanted set's iteration order. test/generate-package-dependencies.test.ts:31-37 expects them sorted. `Curation.FixtureOrderIsInsertionOrder` proves the order the code produces differs from the test's expectation.
- In lib/template-dependencies.ts the `lib` and `app` entries hold each other's sets. See Findings.

## Model

| member | source | states |
|---|---|---|
| AssocList.Lookup | lib/generate-dependencies.ts:9 | reading a property finds a value exactly when the key is one of the object's keys |
| AssocList.LookupUnique | lib/sort-properties.ts:20-21 | in an object without repeated keys, reading the key of any entry gives that entry's value |
| AssocList.Put | lib/generate-dependencies.ts:9 | assigning a property keeps an existing key where it was or appends a new key last, the key then reads back the assigned value, and unique keys stay unique |
| AssocList.PutLookup | lib/generate-dependencies.ts:9 | after an assignment, every other key reads back what it read before |
| AssocList.PutLookupOther | lib/generate-dependencies.ts:9 | an assignment to one key does not change the value read for a different key |
| AssocList.PutInPlace | lib/sort-properties.ts:26-29 | assigning an existing key replaces that entry's value in place and leaves every other entry as it was |
| AssocList.AssignIntoEmpty | lib/sort-properties.ts:26-27 | spreading an object into `{}` copies it entry for entry |
| AssocList.AssignAppends | lib/sort-properties.ts:20-21 | spreading keys the target lacks appends them in the source's order |
| AssocList.AssignOverwrites | lib/sort-properties.ts:26-29 | spreading keys the target already has keeps the target's key order and size and takes each overwritten value from the source |
| AssocList.SortByKey | lib/sort-properties.ts:18-19 | `Object.keys(v).sort()` order: the result is a permutation of the entries with keys in ascending order |
| AssocList.SortByKeyUnique | lib/sort-properties.ts:18-19 | sorting keeps keys unique |
| AssocList.SortByKeySorted | lib/sort-properties.ts:18-19 | sorting entries already in key order changes nothing |
| AssocList.AscendingUniqueIsStrict | lib/sort-properties.ts:18-19 | unique keys in ascending order are strictly ascending |
| Json.OwnEntries | lib/sort-properties.ts:15-21 | the keys and values the loop sees: an object's fields, an array's or string's indices with their items |
| Json.OwnEntriesUnique | lib/sort-properties.ts:18 | a well-formed value never lists a key twice |
| ManifestSort.SortedGroup | lib/sort-properties.ts:17-22 | the rebuilt group holds exactly the group's entries, with strictly ascending keys |
| ManifestSort.SortGroups | lib/sort-properties.ts:14-29 | the spread result has the input's top-level keys in the input's order, and each entry's value is its group value |
| ManifestSort.SortGroupsSpec | lib/sort-properties.ts:14-29 | each truthy listed group becomes a sorted copy of itself, and every other top-level entry (falsy or absent group, or non-group key) is unchanged |
| ManifestSort.GroupValueSpec | lib/sort-properties.ts:15-22 | one entry: a truthy listed group is replaced by its sorted copy, anything else keeps its value |
| ManifestSort.CollectSortedLookup | lib/sort-properties.ts:14-24 | the `sorted` object holds a key exactly when it is a listed group that is truthy in the manifest, with the sorted group as value |
| ManifestSort.SortProperties | lib/sort-properties.ts:3-30 | the five groups including `scripts`, when truthy, keep exactly their entries with strictly ascending keys; every other entry and the top-level key order are unchanged, so no group is invented |
| ManifestSort.SortDependencies | lib/sort-dependencies.ts:3-29 | the four dependency groups, when truthy, keep exactly their entries with strictly ascending keys; `scripts`, every other entry and the top-level key order are unchanged |
| ManifestSort.SortedGroupIdempotent | lib/sort-properties.ts:17-22 | sorting an already sorted group again changes nothing |
| ManifestSort.SortGroupsIdempotent | lib/sort-properties.ts:14-29 | rebuilding the groups of an already rebuilt manifest changes nothing |
| ManifestSort.SortPropertiesIdempotent | lib/sort-properties.ts:3-30 | `sortProperties` is idempotent |
| ManifestSort.SortDependenciesIdempotent | lib/sort-dependencies.ts:3-29 | `sortDependencies` is idempotent |
| Curation.SetOf | lib/template-dependencies.ts:15-30 | `new Set(xs)` keeps each name once, has the same members as `xs`, and is `xs` itself when `xs` has no repeats |
| Curation.GenerateDependencies | lib/generate-dependencies.ts:6-12 | no wanted set gives `{}`; otherwise the keys are exactly the wanted names in iteration order, and each key's value is the chosen version |
| Curation.FillLookup | lib/generate-dependencies.ts:8-10 | after the loop, a wanted name reads the version picked for it and any other key reads what it read before |
| Curation.FillKeys | lib/generate-dependencies.ts:8-10 | the loop appends the wanted names, in order, after the keys already present |
| Curation.PickVersionCases | lib/generate-dependencies.ts:9 | a non-empty dev version wins; a missing or empty dev version falls back to the dependencies pool; a name in neither pool gives `undefined` |
| Curation.FixtureDevPool | test/generate-package-dependencies.test.ts:16-21 | names in the dev pool take their dev versions |
| Curation.FixtureFallback | test/generate-package-dependencies.test.ts:23-29 | a name missing from the dev pool takes the dependencies-pool version |
| Curation.FixtureOrderIsInsertionOrder | lib/generate-dependencies.ts:8-9 | the keys follow the wanted order `d, c, @test`, not the sorted order the test at test/generate-package-dependencies.test.ts:31-37 expects |
| Curation.SetConstants | lib/template-dependencies.ts:1-32 | the app dev set is the base plus `rimraf` and `tsx`, the lib dev set is the base plus `tsup`, and both dependency sets are `{tslib}` |
| Curation.TableShape | lib/template-dependencies.ts:34-47 | the table knows exactly `lib` and `app`; both have `{tslib}` as dependencies and contain every base dev dependency |
| Curation.TableEntriesSwapped | lib/template-dependencies.ts:34-47 | as written, `lib` gets `rimraf` and `tsx` but no `tsup`, and `app` gets only `tsup` |
| Curation.IntendedTableMatchesTemplates | lib/template-dependencies.ts:34-47 | the corrected table gives `lib` the bundler and `app` the runner, and is the written table with the two entries swapped |
| Files.ReadFile | lib/renderers/template.ts:37-38 | reading succeeds exactly on a file and yields its content |
| Files.WriteFile | lib/renderers/template.ts:57 | writing succeeds exactly when the parent is a directory and the target is not one; the target then holds the content, and nothing but the target and its parent's listing changes |
| Files.MkdirOne | lib/renderers/template.ts:26 | creating one directory succeeds unless a non-directory is in the way; an existing directory is left as it was |
| Files.MkdirP | lib/renderers/monorepo.ts:13-17 | recursive mkdir succeeds exactly when no ancestor is a non-directory, leaves an existing directory and everything off its path untouched, and ends with the directory present |
| Files.AllDirsStep | lib/renderers/monorepo.ts:14 | recursive mkdir on a path can succeed exactly when it can on the parent and the path itself is absent or a directory |
| Files.Unlink | lib/empty-dir.ts:12 | `unlinkSync` succeeds exactly on a non-directory, removes it from the map and its parent's listing, and touches nothing else |
| Files.RmDir | lib/empty-dir.ts:11 | `rmdirSync` succeeds exactly on an empty directory other than the root, removes it from the map and its parent's listing, and touches nothing else |
| Files.Without | lib/empty-dir.ts:11-12 | removing a name from a listing keeps every other name, and keeps a listing without repeats without repeats |
| TemplateRender.DotName | lib/renderers/template.ts:44-47 | only a leading `_` becomes `.`, and the rest of the name is kept |
| TemplateRender.Target | lib/renderers/template.ts:44-47 | a directory lands at its destination; a file lands in its destination's directory under its dotted name, except that `_` and `_.` resolve to that directory or one above it |
| TemplateRender.Render | lib/renderers/template.ts:16-58 | `node_modules` leaves the destination unchanged; any other directory exists afterwards; a file lands on its target; nothing outside the target's subtree and its parent's listing changes |
| TemplateRender.RenderChildren | lib/renderers/template.ts:27-29 | each child directory other than `node_modules` exists at the same-named child path, each child file lands on its target, and nothing outside the destination changes; a child file named `_` or `_.` makes the loop fail |
| TemplateRender.RenderFile | lib/renderers/template.ts:33-57 | a rendered file lands on its target, and only the target and its parent's listing change; a target that is a directory fails |
| TemplateRender.MergeExistingManifest | lib/renderers/template.ts:35-42 | a `package.json` over an existing one: a `null` merge aborts with the sorter's TypeError; any other merge is written serialised and re-sorted, followed by a newline, and nothing else changes |
| TemplateRender.NonObjectMergeSpread | lib/sort-properties.ts:15-29 | a merge that is neither an object nor `null` has no group to sort and is written as its spread: the index-keyed entries of an array or string, `{}` for a number or boolean |
| TemplateRender.MergeParseFailure | lib/render-template.ts:37-38 | a manifest `JSON.parse` rejects, on either side, aborts the render |
| TemplateRender.FreshManifestCopied | lib/renderers/template.ts:35-57 | a `package.json` with nothing at its destination is copied verbatim, neither sorted nor newline-terminated |
| TemplateRender.UnderscoreRenamed | lib/render-template.ts:44-47 | `_x`, other than `_` and `_.`, lands in the same parent as `.x`, and the underscored path itself is left alone |
| TemplateRender.DotDirRefused | lib/renderers/template.ts:44-57 | `_` and `_.` resolve to the destination's directory and the one above it; when that directory exists, the copy fails with EISDIR |
| TemplateRender.GitignoreAppended | lib/renderers/template.ts:49-55 | `_gitignore` over an existing `.gitignore` gives the old content, a newline, then the new content |
| TemplateRender.PlainCopy | lib/render-template.ts:57 | every other file, including `_gitignore` with no target, overwrites its target verbatim, failing exactly when the parent is not a directory or the target is one, as the resolved target of `_` or `_.` is |
| TemplateRender.ScriptsByVariant | lib/render-template.ts:39 | the legacy engine leaves `scripts` as the merge made it; the current one sorts a truthy `scripts`; both keep the top-level keys |
| TemplateRender.SortManifestIdempotent | lib/renderers/template.ts:39 | whenever the sorter does not throw, the manifest it writes is already sorted: sorting it again changes nothing |
| PostOrderTraverse.Traverse | lib/post-order-directory-traverse.ts:4-21 | every callback is for a path strictly below the root, never through a `.git` entry, and is a directory callback exactly for directories |
| PostOrderTraverse.Visit | lib/post-order-directory-traverse.ts:9-20 | the callbacks for a run of entries concern only paths under those entries |
| PostOrderTraverse.Here | lib/post-order-directory-traverse.ts:10-19 | the callbacks for one entry concern only that entry and its subtree |
| PostOrderTraverse.HereShape | lib/post-order-directory-traverse.ts:14-19 | a subdirectory's callbacks are its whole traversal followed by its own directory callback; anything else, a symlink included, gets one file callback |
| PostOrderTraverse.TraverseComplete | lib/post-order-directory-traverse.ts:9-19 | every path below the root not under a `.git` entry gets its callback |
| PostOrderTraverse.VisitComplete | lib/post-order-directory-traverse.ts:9-19 | every path under the listed entries, not under `.git`, gets its callback |
| PostOrderTraverse.HereComplete | lib/post-order-directory-traverse.ts:14-19 | every path under one entry, not under `.git`, gets its callback |
| PostOrderTraverse.TraverseOrder | lib/post-order-directory-traverse.ts:14-19 | every callback inside a directory comes before that directory's callback, and no path gets two callbacks |
| PostOrderTraverse.VisitOrder | lib/post-order-directory-traverse.ts:9-20 | across a run of distinct entries, the trace is still post-order with one callback per path |
| PostOrderTraverse.TraverseListingOrder | lib/post-order-directory-traverse.ts:9 | siblings are handled in listing order: every callback under an earlier name precedes every callback under a later one |
| PostOrderTraverse.VisitListingOrder | lib/post-order-directory-traverse.ts:9-20 | the same for a run of distinct listed names |
| EmptyDirectory.Step | lib/empty-dir.ts:9-13 | a directory callback succeeds exactly on an empty directory, a file callback exactly on a non-directory, and the path is gone afterwards |
| EmptyDirectory.Apply | lib/empty-dir.ts:9-13 | a successful run removes every path in the trace and adds nothing |
| EmptyDirectory.ApplyAppend | lib/empty-dir.ts:9-13 | running two traces one after the other is running their concatenation, and the first failure ends the run |
| EmptyDirectory.EmptyDir | lib/empty-dir.ts:4-14 | a missing directory is a no-op, a non-directory throws, and a successful run keeps the file system well formed |
| EmptyDirectory.EmptyDirKeepsOnlyGit | lib/empty-dir.ts:4-14 | with no `.git` below the directory outside its own `.git`, emptying succeeds; the directory stays and lists only its own `.git`, which keeps its contents; everything else below is gone and nothing outside changes |
| EmptyDirectory.NestedGitFails | lib/empty-dir.ts:11 | a `.git` below a subdirectory leaves that subdirectory non-empty, so its `rmdirSync` throws |
| EmptyDirectory.NestedGitTrace | lib/post-order-directory-traverse.ts:10-16 | the trace for a subdirectory holding only `.git` is that subdirectory's callback alone |
| EmptyDirectory.CanSkipEmptying | cli.ts:21-35 | a missing directory, an empty one, or one holding only `.git` can be skipped; any other listing cannot; listing a non-directory throws |
| EmptyDirectory.GitListing | cli.ts:30-34 | in a listing without repeats, "every name is `.git`" means the listing is empty or exactly `['.git']` |
| EmptyDirectory.GitOnlyDistinct | lib/post-order-directory-traverse.ts:10-12 | the entries a traversal leaves in a listing without repeats are one `.git` if there was one, else none |
| EmptyDirectory.SkippableIsUnchanged | cli.ts:21-35 | emptying a directory that can be skipped changes nothing |
| EmptyDirectory.NotSkippableChanges | cli.ts:21-35 | emptying a directory that cannot be skipped (and has no nested `.git`) succeeds and changes the file system |
| EmptyDirectory.GitInGitEmptied | lib/post-order-directory-traverse.ts:10-12 | a `.git` inside the directory's own `.git` is never reached, so emptying a directory holding only that changes nothing |
| EmptyDirectory.GitOnlyTrace | lib/post-order-directory-traverse.ts:9-12 | a directory listing nothing or only `.git` produces no callbacks |
| PackageName.RunInName | cli.ts:69 | the recogniser stays in a name exactly while every character is a name character |
| PackageName.RunNameFirst | cli.ts:69 | from the start of a name, the recogniser accepts exactly the unscoped names |
| PackageName.RunInScope | cli.ts:69 | inside a scope, the recogniser accepts exactly scope characters up to a `/` followed by an unscoped name |
| PackageName.IsValidPackageNameMatches | cli.ts:69 | the recogniser accepts exactly the strings the regular expression matches: an unscoped name, or `@`, a scope, `/` and an unscoped name |
| PackageName.DropLeadingDotOrUnderscore | cli.ts:79 | at most one character is removed, and one is removed exactly when the string starts with `.` or `_` |
| PackageName.ToValidPackageName | cli.ts:74-81 | every character of the normalised name is in `[a-z0-9-~]` |
| PackageName.NormalisedIsValid | cli.ts:69-81 | any non-empty normalised name passes `isValidPackageName` |
| PackageName.NormaliseIdempotent | cli.ts:74-81 | normalising twice is normalising once |
| PackageName.NormaliseFixesNameStarts | cli.ts:74-81 | a string made only of `[a-z0-9-~]` is its own normal form |
| PackageName.NormaliseCanBeEmpty | cli.ts:74-81 | `.` normalises to the empty string, which is not a valid name |
| Plans.SeedObject | lib/renderers/package-json.ts:4-10 | the seed has exactly the keys `name` then `version`, `name` is the package name verbatim and `version` is `0.0.0` |
| Plans.ProjectPlan | lib/renderers/app.ts:4-15 | the seed is written iff the mode is not inject and a name is given, carries that name, and precedes the renders; `base` then the kind are rendered; no folder is made |
| Plans.LegacyProjectPlan | lib/render-app.ts:4-12 | exactly three steps: the seed with the given name, then `base`, then the kind |
| Plans.MonorepoPlan | lib/renderers/monorepo.ts:6-18 | no seed in any mode; only `monorepo` is rendered, before `apps` and then `packages` are made |
| Plans.LegacyIsCurrentWithoutInject | lib/render-lib.ts:4-12 | outside inject mode, the legacy plan for a given name is the current plan |
| Plans.InjectSkipsSeed | lib/renderers/lib.ts:10-14 | in inject mode, or with no name, the plan is just the two renders |
| Plans.RunStep | lib/renderers/package-json.ts:6-9 | the seed step succeeds exactly when the folder is a directory and `package.json` is not one, and leaves the seed text there; a folder step succeeds exactly when recursive mkdir can; an unknown template fails |
| Plans.Execute | lib/renderers/monorepo.ts:11-17 | a successful run keeps the file system well formed and never changes a node's kind |
| Plans.ExecuteAppend | lib/renderers/app.ts:10-14 | running a plan in two parts is running it whole, and the first failing step ends the run |
| Plans.MonorepoSteps | lib/renderers/monorepo.ts:11-17 | a successful monorepo run is the template render, then mkdir of `apps`, then of `packages` |
| Plans.MonorepoFolders | lib/renderers/monorepo.ts:13-17 | after a successful monorepo run `apps` and `packages` exist, and ones the template already made keep their contents |
| Plans.TwoFolders | lib/renderers/monorepo.ts:13-17 | making `apps` then `packages` leaves both present and leaves an existing one's subtree untouched |
| Plans.SeedWrittenFirst | lib/renderers/app.ts:10-13 | in a current app or lib run that seeds, the first step writes the seed object's text to `package.json`, and the rest of the run starts from there |
| UserAgent.GetUserAgent | lib/get-user-agent.ts:1-12 | a monorepo is always pnpm; otherwise pnpm iff the agent mentions pnpm, yarn iff it mentions yarn and not pnpm, npm otherwise |
| UserAgent.UnsetAgentIsNpm | lib/get-user-agent.ts:5-10 | an unset agent variable gives npm |
| UserAgent.PnpmBeforeYarn | lib/get-user-agent.ts:6-9 | an agent naming both yarn and pnpm gives pnpm |
| Readme.Section | lib/generate-readme.ts:22-51 | one section is one command block, for its script, with the command `getCommand` gives |
| Readme.Top | lib/generate-readme.ts:12-20 | the title, the `Project Setup` heading and the install block |
| Readme.Sections | lib/generate-readme.ts:22-51 | the sections' scripts are build, dev only for apps, test, lint, each with `getCommand`'s command |
| Readme.ReadmeDoc | lib/generate-readme.ts:4-56 | the document opens with the title and setup headings; its blocks run install, build, [dev], test, lint; dev appears iff the project is an app; there are 5 blocks for an app and 4 otherwise |
| Readme.ReadmeTextIsDoc | lib/generate-readme.ts:4-56 | the text `generateReadme` builds is exactly the rendering of that document |
| Readme.ReadmeStartsWithTitle | lib/generate-readme.ts:12-16 | the text starts with `# `, the project name and the `Project Setup` heading |
| Prompts.Settle | lib/run-prompt.ts:57-81 | a re-asked text prompt ends with the first reply that is valid or cancelled |
| Prompts.TextPrompt | lib/run-prompt.ts:130-147 | a text prompt either exits or yields a value that passes its validation |
| Prompts.AskProjectDir | lib/run-prompt.ts:57-81 | a non-blank argument is used trimmed without asking; otherwise the answer is asked; a value is never empty |
| Prompts.AskExistingProject | lib/run-prompt.ts:83-128 | a skippable directory gives skip whatever the flags; otherwise force beats inject; only a cancelled prompt or the cancel choice exits |
| Prompts.InitialPackageName | lib/run-prompt.ts:130-136 | the suggested name exists iff the directory name is non-empty and is already in normal form |
| Prompts.AskPackageName | lib/run-prompt.ts:130-147 | the package name either exits or is valid |
| Prompts.AskProjectType | lib/run-prompt.ts:149-200 | flag precedence is lib, then app, then monorepo; without a flag the answer is asked, and cancelling exits |
| Prompts.Confirm | lib/run-prompt.ts:202-224 | a confirmation is never decided by a flag and exits exactly when cancelled |
| Prompts.AskChangesets | lib/run-prompt.ts:202-224 | the flag or a monorepo gives true, monorepo members give false without asking, otherwise it is asked |
| Prompts.AskInitGit | lib/run-prompt.ts:226-248 | an explicit flag gives true even for members; otherwise members give false and others are asked |
| Prompts.AskActions | lib/run-prompt.ts:250-272 | an explicit flag gives true even for members; otherwise members give false and others are asked |
| Prompts.FlagOrMemberOrAsk | lib/run-prompt.ts:230-236 | the flag gives true, a member gives false, otherwise the answer is asked |
| Prompts.AskInstallDeps | lib/run-prompt.ts:274-293 | members give false without asking; otherwise it is a confirmation |
| Prompts.AskInstallPnpm | lib/run-prompt.ts:295-306 | anything but a yes exits |
| Prompts.RunPrompt | lib/run-prompt.ts:6-55 | a finished run has a non-empty directory and a valid package name, skips exactly the skippable directory, gives a monorepo changesets, and gives members changesets, git and Actions exactly as flagged |
| Prompts.CancelledNameExits | lib/run-prompt.ts:130-147 | cancelling the package-name prompt exits the run |
| Prompts.CancelChoiceExits | lib/run-prompt.ts:123-126 | choosing cancel for a non-empty directory exits the run |
| Prompts.FlagsDecide | lib/run-prompt.ts:6-55 | with the directory, mode, type and every switch given by flags, the run asks only for the name and yields the flagged answers |
| Prompts.FlagsAnswerAllButName | lib/run-prompt.ts:6-55 | with all those flags the other replies cannot change the result |
| Prompts.InitialNameMayBeInvalid | lib/run-prompt.ts:130-136 | the suggested name can be empty and so invalid |

## Left out

- Strings: `trim`, `toLowerCase` and `\s` are restricted to ASCII, and strings are compared by code point, not UTF-16 code unit.
- AssocList: JavaScript moves integer-like keys to the front of an object; the model keeps plain insertion order.
- Json: numbers are integers. Floating point is not modelled.
- `deepMerge`, `JSON.parse`, `JSON.stringify` and `getCommand` are parameters whose code is not part of this model. No property of the merge is claimed.
- TemplateRender: only the `node:fs` calls the engine makes are modelled. Permissions, races and disk errors are not.
  - Listing order is the order stored in each directory node.
- Files: a symlink is a `Link` node and is never followed. The traversal reaches it through `lstat` as a file. `existsSync`, `readdirSync` and `writeFileSync` would follow it; here `EmptyDirectory.EmptyDir`, `EmptyDirectory.CanSkipEmptying` and `Plans.RunStep` treat it as a non-directory, and a write replaces it.
- TemplateRender: the source template is a tree value, so the engine cannot change it. Rendering a template into itself is not modelled.
- TemplateRender.UnderscoreRenamed: requires the destination's base name to be the source file's name, as every call from the directory loop has it.
- PostOrderTraverse.Traverse: the trace is computed from a snapshot, while the source interleaves listing and callbacks. A directory is listed before any callback for its entries, and sibling subtrees are disjoint, so the two agree for `emptyDir`.
- EmptyDirectory.EmptyDirKeepsOnlyGit: requires no `.git` below the directory outside the directory's own `.git` entry. A `.git` deeper in a subdirectory makes emptying fail, as `NestedGitFails` exhibits; one inside the directory's own `.git` is allowed, since the traversal never enters it (`GitInGitEmptied`).
- EmptyDirectory.NotSkippableChanges: requires the same, for the same reason.
- The duplicate `postOrderDirectoryTraverse` and `emptyDir` in cli.ts:37-66 are the same as the library ones and are modelled once.
- Curation: the two input pools cannot be changed by a pure function, so "neither pool is mutated" holds by construction and has no lemma.
- Plans: the legacy renderers seed through lib/render-package-json.ts, which is not part of this model. `Execute` takes the seed text as a parameter.
- Plans: the existing-project mode passed to `render` is ignored by the engine, so render steps carry only the template name.
- The path-forwarding wrappers lib/render.ts and lib/renderers/render.ts are inlined as render steps. lib/renderers/readme.ts, wtih-actions.ts and wtih-gh.ts are not modelled.
- External processes are not modelled: lib/ensure-pnpm.ts, lib/git-init-repo.ts and lib/inistall-deps.ts only run commands, print and exit.
- The top-level script in cli.ts:89-276 is not modelled: argument parsing, console output, git initialisation and rollback.
- Prompts: message texts, the interactive UI and the `process.exit` call are not modelled. A cancellation is the `Exited` outcome.
- Prompts: an absent command-line flag is `false`.
- Prompts.Settle: requires the oracle's replies to contain a final reply, valid or cancelled. An endless run of invalid input is not modelled.

## Findings

| source | as written | input that shows it | evidently intended | confidence | as-written member | corrected member |
|---|---|---|---|---|---|---|
| lib/template-dependencies.ts:34-47 | the `lib` entry holds `APP_DEPENDENCIES`/`APP_DEV_DEPENDENCIES` and the `app` entry holds the `LIB_` sets | `dependenciesByTemplate.get('lib')` has `tsx` and `rimraf` but no `tsup`; `get('app')` has `tsup` | `lib` gets the library sets (with the `tsup` bundler) and `app` the application sets (with `tsx`) | not executed | Curation.TableEntriesSwapped | Curation.IntendedTableMatchesTemplates |
