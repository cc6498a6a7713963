/**
  `generateReadme({ projectName, packageManager, projectType })`: the
  README of a generated project. The text is a title, a setup heading, and
  one `sh` code block per package script, each but the first under its own
  heading. `getCommand`, whose code is not part of this model, is a
  parameter: `commandFor(script)` is `getCommand(packageManager, script)`.

  The text is modelled twice: `ReadmeText` follows the template literals as
  written, and `ReadmeDoc` is the document structure they spell out;
  `ReadmeTextIsDoc` shows that rendering the structure gives the text.
*/
module Readme {
  import opened Strings

  datatype Block =
    | Heading(level: nat, text: string)
    | Code(script: string, command: string)

  const SetupHeading := "Project Setup"
  const BuildHeading := "Type-Check Compile and Minify for Production"
  const DevHeading := "Compile and Hot-Reload for Development"
  const TestHeading := "Run Tests with [Vitest](https://vitest.dev/)"
  const LintHeading := "Lint with [Rome](https://rome.tools/)"

  /** A fenced `sh` code block holding one command. */
  function CodeText(command: string): string {
    "```sh\n" + command + "\n```\n"
  }

  /**
    The text after the setup heading: the install and build blocks, the dev
    block for an app only, then the test and lint blocks. Each later
    heading starts with a newline, which leaves a blank line after the code
    block above it.
  */
  function Descriptions(packageManager: string, projectType: string,
                        getCommand: (string, string) -> string): string
  {
    var descriptions := CodeText(getCommand(packageManager, "install"))
      + "\n### " + BuildHeading + "\n\n" + CodeText(getCommand(packageManager, "build"));
    var withDev :=
      if projectType == "app" then
        descriptions + "\n### " + DevHeading + "\n\n" + CodeText(getCommand(packageManager, "dev"))
      else descriptions;
    var withTest := withDev + "\n### " + TestHeading + "\n\n" + CodeText(getCommand(packageManager, "test"));
    withTest + "\n### " + LintHeading + "\n\n" + CodeText(getCommand(packageManager, "lint"))
  }

  /** The README as the template literals build it: title, setup heading, then the descriptions. */
  function ReadmeText(projectName: string, packageManager: string, projectType: string,
                      getCommand: (string, string) -> string): string
  {
    "# " + projectName + "\n\n" + "## " + SetupHeading + "\n\n" + Descriptions(packageManager, projectType, getCommand)
  }

  // ---------------------------------------------------------------------
  // The document structure.

  /** The scripts whose commands the document shows, in order. */
  function Scripts(doc: seq<Block>): seq<string> {
    if doc == [] then []
    else (if doc[0].Code? then [doc[0].script] else []) + Scripts(doc[1..])
  }

  lemma ScriptsCons(b: Block, rest: seq<Block>)
    ensures Scripts([b] + rest) == (if b.Code? then [b.script] else []) + Scripts(rest)
  {
    assert ([b] + rest)[0] == b && ([b] + rest)[1..] == rest;
  }

  lemma {:induction false} ScriptsAppend(a: seq<Block>, b: seq<Block>)
    ensures Scripts(a + b) == Scripts(a) + Scripts(b)
    decreases |a|
  {
    if a == [] {
      assert a + b == b;
    } else {
      assert (a + b)[0] == a[0] && (a + b)[1..] == a[1..] + b;
      ScriptsAppend(a[1..], b);
    }
  }

  /** A script's section: its heading, then its code block. */
  function Section(heading: string, script: string, packageManager: string,
                   getCommand: (string, string) -> string): (s: seq<Block>)
    ensures Scripts(s) == [script]
    ensures forall b :: b in s && b.Code? ==> b.script == script && b.command == getCommand(packageManager, script)
  {
    var c := Code(script, getCommand(packageManager, script));
    ScriptsCons(c, []);
    ScriptsCons(Heading(3, heading), [c]);
    [Heading(3, heading)] + [c]
  }

  /** The title, the setup heading and the install block. */
  function Top(projectName: string, installCommand: string): (s: seq<Block>)
    ensures |s| == 3 && s[0] == Heading(1, projectName) && s[1] == Heading(2, SetupHeading)
    ensures Scripts(s) == ["install"]
    ensures forall b :: b in s && b.Code? ==> b.script == "install" && b.command == installCommand
  {
    var c := Code("install", installCommand);
    ScriptsCons(c, []);
    ScriptsCons(Heading(2, SetupHeading), [c]);
    ScriptsCons(Heading(1, projectName), [Heading(2, SetupHeading), c]);
    [Heading(1, projectName)] + ([Heading(2, SetupHeading)] + [c])
  }

  /** The sections after the install block: build, dev for an app only, test, lint. */
  function Sections(packageManager: string, projectType: string,
                    getCommand: (string, string) -> string): (s: seq<Block>)
    ensures Scripts(s) == ["build"] + (if projectType == "app" then ["dev"] else []) + ["test", "lint"]
    ensures forall b :: b in s && b.Code? ==> b.command == getCommand(packageManager, b.script)
  {
    var build := Section(BuildHeading, "build", packageManager, getCommand);
    var dev := if projectType == "app" then Section(DevHeading, "dev", packageManager, getCommand) else [];
    var test := Section(TestHeading, "test", packageManager, getCommand);
    var lint := Section(LintHeading, "lint", packageManager, getCommand);
    ScriptsAppend(build, dev);
    ScriptsAppend(build + dev, test);
    ScriptsAppend(build + dev + test, lint);
    TailScripts(Scripts(dev));
    build + dev + test + lint
  }

  lemma TailScripts(dev: seq<string>)
    ensures ["build"] + dev + ["test"] + ["lint"] == ["build"] + dev + ["test", "lint"]
  {
  }

  /** The structure of the README. */
  function ReadmeDoc(projectName: string, packageManager: string, projectType: string,
                     getCommand: (string, string) -> string): (doc: seq<Block>)
    ensures |doc| >= 2 && doc[0] == Heading(1, projectName) && doc[1] == Heading(2, SetupHeading)
    ensures Scripts(doc) == ["install", "build"] + (if projectType == "app" then ["dev"] else []) + ["test", "lint"]
    ensures |Scripts(doc)| == (if projectType == "app" then 5 else 4)
    ensures "dev" in Scripts(doc) <==> projectType == "app"
    ensures forall b :: b in doc && b.Code? ==> b.command == getCommand(packageManager, b.script)
  {
    var top := Top(projectName, getCommand(packageManager, "install"));
    var rest := Sections(packageManager, projectType, getCommand);
    ScriptsAppend(top, rest);
    ScriptList(projectType == "app");
    assert forall b :: b in top + rest ==> b in top || b in rest;
    top + rest
  }

  /** The script list with or without `dev`, and where `dev` occurs in it. */
  lemma ScriptList(app: bool)
    ensures var dev := if app then ["dev"] else [];
      var l := ["install"] + (["build"] + dev + ["test", "lint"]);
      && l == ["install", "build"] + dev + ["test", "lint"]
      && |l| == (if app then 5 else 4)
      && ("dev" in l <==> app)
  {
    var dev := if app then ["dev"] else [];
    var l := ["install"] + (["build"] + dev + ["test", "lint"]);
    assert "dev"[0] == 'd';
    assert forall i :: 0 <= i < |l| && l[i] != "dev" ==> l[i][0] != 'd';
  }

  // ---------------------------------------------------------------------
  // From structure to text.

  /**
    The characters before a heading's text: `# ` and `## ` at the top, and
    `### ` after a newline further down.
  */
  function HeadingPrefix(level: nat): string {
    if level == 1 then "# " else if level == 2 then "## " else "\n### "
  }

  function BlockText(b: Block): string {
    match b
    case Heading(level, text) => HeadingPrefix(level) + text + "\n\n"
    case Code(_, command) => CodeText(command)
  }

  function DocText(doc: seq<Block>): string {
    if doc == [] then "" else BlockText(doc[0]) + DocText(doc[1..])
  }

  lemma DocTextCons(b: Block, rest: seq<Block>)
    ensures DocText([b] + rest) == BlockText(b) + DocText(rest)
  {
    assert ([b] + rest)[0] == b && ([b] + rest)[1..] == rest;
  }

  lemma {:induction false} DocTextAppend(a: seq<Block>, b: seq<Block>)
    ensures DocText(a + b) == DocText(a) + DocText(b)
    decreases |a|
  {
    if a == [] {
      assert a + b == b;
    } else {
      assert (a + b)[0] == a[0] && (a + b)[1..] == a[1..] + b;
      DocTextAppend(a[1..], b);
    }
  }

  lemma SectionText(heading: string, script: string, packageManager: string, getCommand: (string, string) -> string)
    ensures DocText(Section(heading, script, packageManager, getCommand))
      == "\n### " + heading + "\n\n" + CodeText(getCommand(packageManager, script))
  {
    var c := Code(script, getCommand(packageManager, script));
    DocTextCons(c, []);
    DocTextCons(Heading(3, heading), [c]);
  }

  lemma TopText(projectName: string, installCommand: string)
    ensures DocText(Top(projectName, installCommand))
      == "# " + projectName + "\n\n" + "## " + SetupHeading + "\n\n" + CodeText(installCommand)
  {
    var c := Code("install", installCommand);
    var h1, h2 := Heading(1, projectName), Heading(2, SetupHeading);
    assert [c] + [] == [c];
    DocTextCons(c, []);
    assert DocText([c]) == CodeText(installCommand);
    DocTextCons(h2, [c]);
    DocTextCons(h1, [h2] + [c]);
    assert DocText(Top(projectName, installCommand)) == BlockText(h1) + (BlockText(h2) + CodeText(installCommand));
  }

  lemma Assoc(x: string, y: string, z: string)
    ensures x + y + z == x + (y + z)
  {
  }

  lemma Regroup(x: string, a: string, b: string, c: string, d: string)
    ensures x + a + b + c + d == x + (a + b + c + d)
  {
  }

  /** Appending a section's text is appending its heading line and its code block. */
  lemma AppendSection(x: string, heading: string, script: string, packageManager: string,
                      getCommand: (string, string) -> string)
    ensures x + "\n### " + heading + "\n\n" + CodeText(getCommand(packageManager, script))
      == x + DocText(Section(heading, script, packageManager, getCommand))
  {
    SectionText(heading, script, packageManager, getCommand);
    Regroup(x, "\n### ", heading, "\n\n", CodeText(getCommand(packageManager, script)));
  }

  lemma SectionsText(packageManager: string, projectType: string, getCommand: (string, string) -> string)
    ensures Descriptions(packageManager, projectType, getCommand)
      == CodeText(getCommand(packageManager, "install")) + DocText(Sections(packageManager, projectType, getCommand))
  {
    var build := Section(BuildHeading, "build", packageManager, getCommand);
    var dev := if projectType == "app" then Section(DevHeading, "dev", packageManager, getCommand) else [];
    var test := Section(TestHeading, "test", packageManager, getCommand);
    var lint := Section(LintHeading, "lint", packageManager, getCommand);
    var install := CodeText(getCommand(packageManager, "install"));
    DocTextAppend(build, dev);
    DocTextAppend(build + dev, test);
    DocTextAppend(build + dev + test, lint);
    AppendSection(install, BuildHeading, "build", packageManager, getCommand);
    var d1 := install + DocText(build);
    var d2 := if projectType == "app" then d1 + DocText(dev) else d1;
    if projectType == "app" {
      AppendSection(d1, DevHeading, "dev", packageManager, getCommand);
    } else {
      assert build + dev == build;
    }
    Assoc(install, DocText(build), DocText(dev));
    assert d2 == install + DocText(build + dev);
    AppendSection(d2, TestHeading, "test", packageManager, getCommand);
    var d3 := d2 + DocText(test);
    Assoc(install, DocText(build + dev), DocText(test));
    assert d3 == install + DocText(build + dev + test);
    AppendSection(d3, LintHeading, "lint", packageManager, getCommand);
    Assoc(install, DocText(build + dev + test), DocText(lint));
  }

  /** Rendering the structure gives the README text, character for character. */
  lemma ReadmeTextIsDoc(projectName: string, packageManager: string, projectType: string,
                        getCommand: (string, string) -> string)
    ensures ReadmeText(projectName, packageManager, projectType, getCommand)
      == DocText(ReadmeDoc(projectName, packageManager, projectType, getCommand))
  {
    var install := CodeText(getCommand(packageManager, "install"));
    var top := Top(projectName, getCommand(packageManager, "install"));
    var rest := Sections(packageManager, projectType, getCommand);
    var title := "# " + projectName + "\n\n" + "## " + SetupHeading + "\n\n";
    DocTextAppend(top, rest);
    TopText(projectName, getCommand(packageManager, "install"));
    SectionsText(packageManager, projectType, getCommand);
    assert ReadmeText(projectName, packageManager, projectType, getCommand)
      == title + Descriptions(packageManager, projectType, getCommand);
    Glue(title, install, DocText(rest), Descriptions(packageManager, projectType, getCommand), DocText(top));
  }

  lemma Glue(title: string, install: string, rest: string, descriptions: string, top: string)
    requires descriptions == install + rest && top == title + install
    ensures title + descriptions == top + rest
  {
  }

  lemma SetupLine()
    ensures "\n\n" + "## " + SetupHeading + "\n\n" == "\n\n## Project Setup\n\n"
  {
  }

  /** The README opens with the project's title and the setup heading. */
  lemma ReadmeStartsWithTitle(projectName: string, packageManager: string, projectType: string,
                              getCommand: (string, string) -> string)
    ensures StartsWith(ReadmeText(projectName, packageManager, projectType, getCommand),
                       "# " + projectName + "\n\n## Project Setup\n\n")
  {
    var t := ReadmeText(projectName, packageManager, projectType, getCommand);
    var d := Descriptions(packageManager, projectType, getCommand);
    var name := "# " + projectName;
    SetupLine();
    assert t == name + "\n\n" + "## " + SetupHeading + "\n\n" + d;
    Regroup(name, "\n\n", "## ", SetupHeading, "\n\n");
    PrefixOf(name + "\n\n## Project Setup\n\n", d);
  }

  lemma PrefixOf(head: string, tail: string)
    ensures StartsWith(head + tail, head)
  {
    assert (head + tail)[..|head|] == head;
  }
}
