/**
 The make files of `internal/graph_test.go` and the command of
 `internal/executeCmd_test.go`, worked through the model. Each file is given
 line by line as the scanner hands them over (without line ends).
 */
module Fixtures {
  import opened Strings
  import opened Graph
  import opened Parser
  import opened RoundTrip
  import opened Cycles
  import opened Execution
  import opened Commands

  // ---------------------------------------------------------------------
  // Reading single lines
  // ---------------------------------------------------------------------

  /** A line of white space only is skipped. */
  lemma ClassifyBlank(raw: string)
    requires AllSpace(raw)
    ensures ClassifyLine(raw) == Skipped
  {
  }

  /** A command indented with any white space reads back as the command. */
  lemma ClassifyIndented(indent: string, c: string)
    requires AllSpace(indent) && IsCommandText(c)
    ensures ClassifyLine(indent + c) == Command(c)
  {
    ClassifyIndentedLine(indent, c);
    ClassifyBareCommand(c);
  }

  /** A line that is the written header of a target reads back as that header. */
  lemma ClassifyHeaderLine(line: string, b: Block, l: Line)
    requires WellFormed(b) && line == HeaderText(b) && l == Header(b.name, DepsText(b.deps))
    ensures ClassifyLine(line) == l
  {
    ClassifyHeaderText(b);
  }

  /** A header followed by white space reads like the header alone. */
  lemma ClassifyPaddedHeader(b: Block, pad: string)
    requires WellFormed(b) && AllSpace(pad)
    ensures ClassifyLine(HeaderText(b) + pad) == Header(b.name, DepsText(b.deps))
  {
    var h := HeaderText(b);
    HeaderTextTrimmed(b);
    assert IsTrimmed(h);
    TrimSpacePadded("", h, pad);
    assert "" + h + pad == h + pad;
    ClassifyByTrim(h + pad, h);
    ClassifyHeaderText(b);
  }

  /** A command line with a colon inside it. */
  const ColonCommand := "\techo a:b"

  lemma ColonCommandText()
    ensures ColonCommand == "\t" + ("echo a" + ":" + "b")
  {
  }

  /** A command with a colon in it is taken for a header, since a line is
      tested for a colon before it is tested for being a command. */
  lemma ColonCommandIsHeader()
    ensures ClassifyLine(ColonCommand) == Header("echo a", "b")
  {
    var a := "echo a";
    assert IsTrimmed(a) && ':' !in a;
    ColonCommandText();
    ColonSplitsCommand("\t", a, "b");
  }

  // ---------------------------------------------------------------------
  // Running the fold over blocks and blank lines
  // ---------------------------------------------------------------------

  lemma RunSkip(st: ParseState, rest: seq<Line>)
    ensures Run(st, [Skipped] + rest) == Run(st, rest)
  {
    assert ([Skipped] + rest)[1..] == rest;
  }

  lemma SameSix<T>(a: seq<T>, b: seq<T>)
    requires |a| == 6 && |b| == 6
    requires a[0] == b[0] && a[1] == b[1] && a[2] == b[2]
    requires a[3] == b[3] && a[4] == b[4] && a[5] == b[5]
    ensures a == b
  {
    forall i | 0 <= i < 6 ensures a[i] == b[i] {
      if i < 3 {
      } else {
      }
    }
  }

  lemma RunBlockThen(st: ParseState, b: Block, rest: seq<Line>)
    requires WellFormed(b)
    ensures Run(st, BlockLines(b)).Running?
    ensures Run(st, BlockLines(b) + rest) == Run(Run(st, BlockLines(b)).state, rest)
    ensures Run(st, BlockLines(b)).state.graph == Store(st.graph, b)
  {
    DepsReadBack(b.deps);
    RunBlock(st, b);
    RunAppend(st, BlockLines(b), rest);
  }

  // ---------------------------------------------------------------------
  // validMakefile
  // ---------------------------------------------------------------------

  const Build := Block("build", [], ["@echo 'executing build'", "echo 'cmd2'"])
  const Test := Block("test", ["build"], ["@echo 'executing test'"])
  const Publish := Block("publish", ["test"], ["@echo 'executing publish'"])

  const ValidLines: seq<string> := [
    "build:",
    "\t@echo 'executing build'",
    "\techo 'cmd2'",
    "",
    "test: build",
    "\t@echo 'executing test'",
    "",
    "publish: test ",
    "\t@echo 'executing publish'"
  ]

  /** The graph the test expects. */
  const ValidGraph: Graph := map[
    "build" := Vertex([], ["@echo 'executing build'", "echo 'cmd2'"]),
    "test" := Vertex(["build"], ["@echo 'executing test'"]),
    "publish" := Vertex(["test"], ["@echo 'executing publish'"])
  ]

  lemma WellFormedValid()
    ensures WellFormed(Build) && WellFormed(Test) && WellFormed(Publish)
  {
    assert IsCommandText(Build.cmds[0]) && IsCommandText(Build.cmds[1]);
    assert IsCommandText(Test.cmds[0]) && IsWord(Test.deps[0]);
    assert IsCommandText(Publish.cmds[0]) && IsWord(Publish.deps[0]);
  }

  /** How each line of `validMakefile` is read. */
  const ValidLex: seq<Line> := [
    Header("build", ""),
    Command("@echo 'executing build'"),
    Command("echo 'cmd2'"),
    Skipped,
    Header("test", " build"),
    Command("@echo 'executing test'"),
    Skipped,
    Header("publish", " test"),
    Command("@echo 'executing publish'")
  ]

  /** The lines are the headers and indented commands of the three targets. */
  lemma ValidLinesShape()
    ensures ValidLines[0] == HeaderText(Build)
    ensures ValidLines[1] == "\t" + Build.cmds[0]
    ensures ValidLines[2] == "\t" + Build.cmds[1]
    ensures ValidLines[4] == HeaderText(Test)
    ensures ValidLines[5] == "\t" + Test.cmds[0]
    ensures ValidLines[7] == HeaderText(Publish) + " "
    ensures ValidLines[8] == "\t" + Publish.cmds[0]
  {
  }

  lemma ValidDepsTexts()
    ensures DepsText(Build.deps) == "" && DepsText(Test.deps) == " build" && DepsText(Publish.deps) == " test"
  {
  }

  lemma LexValidBuild()
    ensures ClassifyLine(ValidLines[0]) == ValidLex[0]
  {
    WellFormedValid();
    ValidLinesShape();
    ValidDepsTexts();
    ClassifyHeaderText(Build);
  }

  lemma LexValidTest()
    ensures ClassifyLine(ValidLines[4]) == ValidLex[4]
  {
    WellFormedValid();
    ValidLinesShape();
    ValidDepsTexts();
    ClassifyHeaderText(Test);
  }

  lemma LexValidPublish()
    ensures ClassifyLine(ValidLines[7]) == ValidLex[7]
  {
    WellFormedValid();
    ValidLinesShape();
    ValidDepsTexts();
    ClassifyPaddedHeader(Publish, " ");
  }

  lemma LexValidCommands()
    ensures ClassifyLine(ValidLines[1]) == ValidLex[1]
    ensures ClassifyLine(ValidLines[2]) == ValidLex[2]
    ensures ClassifyLine(ValidLines[5]) == ValidLex[5]
    ensures ClassifyLine(ValidLines[8]) == ValidLex[8]
  {
    WellFormedValid();
    ValidLinesShape();
    ClassifyIndented("\t", Build.cmds[0]);
    ClassifyIndented("\t", Build.cmds[1]);
    ClassifyIndented("\t", Test.cmds[0]);
    ClassifyIndented("\t", Publish.cmds[0]);
  }

  /** Two sequences of nine elements that agree at every index are equal. */
  lemma SameNine<T>(a: seq<T>, b: seq<T>)
    requires |a| == 9 && |b| == 9
    requires a[0] == b[0] && a[1] == b[1] && a[2] == b[2]
    requires a[3] == b[3] && a[4] == b[4] && a[5] == b[5]
    requires a[6] == b[6] && a[7] == b[7] && a[8] == b[8]
    ensures a == b
  {
    forall i | 0 <= i < 9 ensures a[i] == b[i] {
      if i < 3 {
      } else if i < 6 {
      } else {
      }
    }
  }

  lemma LexValid()
    ensures Lex(ValidLines) == ValidLex
  {
    LexValidBuild();
    LexValidTest();
    LexValidPublish();
    LexValidCommands();
    ClassifyBlank(ValidLines[3]);
    ClassifyBlank(ValidLines[6]);
    var ls := Lex(ValidLines);
    assert ls[0] == ValidLex[0] && ls[1] == ValidLex[1] && ls[2] == ValidLex[2];
    assert ls[3] == ValidLex[3] && ls[4] == ValidLex[4] && ls[5] == ValidLex[5];
    assert ls[6] == ValidLex[6] && ls[7] == ValidLex[7] && ls[8] == ValidLex[8];
    SameNine(ls, ValidLex);
  }

  lemma ValidLexBlocks()
    ensures ValidLex == BlockLines(Build) + ([Skipped] + (BlockLines(Test) + ([Skipped] + BlockLines(Publish))))
  {
    assert DepsText(Test.deps) == " build";
    assert DepsText(Publish.deps) == " test";
  }

  /** `validMakefile` parses without error into the expected graph. */
  lemma ParseValid()
    ensures Parse(NewGraph(), ValidLines) == ParseResult(ValidGraph, None)
  {
    WellFormedValid();
    LexValid();
    ValidLexBlocks();
    var s0 := Start(NewGraph());
    var rest2 := BlockLines(Test) + ([Skipped] + BlockLines(Publish));
    RunBlockThen(s0, Build, [Skipped] + rest2);
    var s1 := Run(s0, BlockLines(Build)).state;
    RunSkip(s1, rest2);
    RunBlockThen(s1, Test, [Skipped] + BlockLines(Publish));
    var s2 := Run(s1, BlockLines(Test)).state;
    RunSkip(s2, BlockLines(Publish));
    RunBlockThen(s2, Publish, []);
    assert BlockLines(Publish) + [] == BlockLines(Publish);
    var s3 := Run(s2, BlockLines(Publish)).state;
    assert s3.graph == ValidGraph;
  }

  // ---------------------------------------------------------------------
  // A header without a name: the parse stops there
  // ---------------------------------------------------------------------

  const NamelessLines: seq<string> := [
    "build:",
    "\t@echo 'executing build'",
    "\techo 'cmd2'",
    "",
    ": build",
    "\t@echo 'executing test'",
    "",
    "publish: test ",
    "\t@echo 'executing publish'"
  ]

  lemma NamelessLinesShape()
    ensures NamelessLines[..4] == ValidLines[..4] && NamelessLines[4] == ": build"
  {
  }

  lemma ClassifyNameless()
    ensures ClassifyLine(": build") == Header("", " build")
  {
    var line := ": build";
    assert IsTrimmed(line);
    TrimSpacePadded("", line, "");
    assert "" + line + "" == line;
    ClassifyTrimmedHeader(line);
    assert IndexOf(line, ':') == 0;
    assert line[..0] == "" && line[1..] == " build";
  }

  /** The first target and the blank line after it, as lines. */
  lemma LexBuildOnly()
    ensures Lex(ValidLines[..4]) == BlockLines(Build) + [Skipped]
  {
    LexValid();
    ValidLexBlocks();
    LexPrefix(ValidLines, 4);
  }

  /** The first target alone, followed by a blank line. */
  lemma ParseBuildOnly()
    ensures Parse(NewGraph(), ValidLines[..4]) == ParseResult(map["build" := Vertex(Build.deps, Build.cmds)], None)
  {
    WellFormedValid();
    LexBuildOnly();
    var s0 := Start(NewGraph());
    RunBlockThen(s0, Build, [Skipped]);
    RunSkip(Run(s0, BlockLines(Build)).state, []);
  }

  /** The first target's lines: its named header, its commands, a blank. */
  lemma BuildOnlyKinds()
    ensures forall k :: 0 <= k < 4 ==> !IsNameless((BlockLines(Build) + [Skipped])[k])
  {
    var ls := BlockLines(Build) + [Skipped];
    assert ls[0] == Header("build", DepsText(Build.deps));
    assert ls[1] == Command(Build.cmds[0]) && ls[2] == Command(Build.cmds[1]) && ls[3] == Skipped;
  }

  /** No line of the first target is a header without a name. */
  lemma BuildOnlyNamed(lines: seq<string>)
    requires |lines| >= 4 && Lex(lines[..4]) == BlockLines(Build) + [Skipped]
    ensures forall j :: 0 <= j < 4 ==> !IsNamelessHeader(lines[j])
  {
    BuildOnlyKinds();
    forall j | 0 <= j < 4 ensures !IsNamelessHeader(lines[j]) {
      assert ClassifyLine(lines[j]) == Lex(lines[..4])[j];
    }
  }

  /** The test expects an error for a header without a name: the parse reports
      `ErrTargetNotFound`, and the target stored before that line stays. */
  lemma ParseNameless()
    ensures Parse(NewGraph(), NamelessLines)
      == ParseResult(map["build" := Vertex([], ["@echo 'executing build'", "echo 'cmd2'"])], Some(ErrTargetNotFound))
  {
    NamelessLinesShape();
    ClassifyNameless();
    assert IsNamelessHeader(NamelessLines[4]);
    LexBuildOnly();
    BuildOnlyNamed(NamelessLines);
    StopsAtFirstNamelessHeader(NewGraph(), NamelessLines, 4);
    ParseBuildOnly();
  }

  // ---------------------------------------------------------------------
  // A target declared twice: the later one replaces the earlier
  // ---------------------------------------------------------------------

  const RepeatedLines: seq<string> := [
    "build:",
    "\t@echo 'executing build'",
    "\techo 'cmd2'",
    "",
    "publish: build",
    "\t@echo 'executing test'",
    "",
    "publish: ",
    "\t@echo 'executing publish'"
  ]

  const PublishFirst := Block("publish", ["build"], ["@echo 'executing test'"])
  const PublishAgain := Block("publish", [], ["@echo 'executing publish'"])

  const RepeatedLex: seq<Line> := [
    Header("build", ""),
    Command("@echo 'executing build'"),
    Command("echo 'cmd2'"),
    Skipped,
    Header("publish", " build"),
    Command("@echo 'executing test'"),
    Skipped,
    Header("publish", ""),
    Command("@echo 'executing publish'")
  ]

  lemma RepeatedLinesShape()
    ensures RepeatedLines[4] == HeaderText(PublishFirst)
    ensures RepeatedLines[5] == "\t" + PublishFirst.cmds[0]
    ensures RepeatedLines[7] == HeaderText(PublishAgain) + " "
  {
  }

  lemma RepeatedDepsTexts()
    ensures DepsText(PublishFirst.deps) == " build" && DepsText(PublishAgain.deps) == ""
  {
  }

  lemma WellFormedRepeated()
    ensures WellFormed(PublishFirst) && WellFormed(PublishAgain)
  {
    assert IsCommandText(PublishFirst.cmds[0]) && IsWord(PublishFirst.deps[0]);
    assert IsCommandText(PublishAgain.cmds[0]);
  }

  lemma LexRepeatedFirst()
    ensures ClassifyLine(RepeatedLines[4]) == RepeatedLex[4]
  {
    WellFormedRepeated();
    RepeatedLinesShape();
    RepeatedDepsTexts();
    ClassifyHeaderText(PublishFirst);
  }

  lemma LexRepeatedAgain()
    ensures ClassifyLine(RepeatedLines[7]) == RepeatedLex[7]
  {
    WellFormedRepeated();
    RepeatedLinesShape();
    RepeatedDepsTexts();
    ClassifyPaddedHeader(PublishAgain, " ");
  }

  lemma LexRepeatedCommand()
    ensures ClassifyLine(RepeatedLines[5]) == RepeatedLex[5]
  {
    WellFormedRepeated();
    RepeatedLinesShape();
    ClassifyIndented("\t", PublishFirst.cmds[0]);
  }

  /** The lines `validMakefile` shares with this file are read the same way. */
  lemma LexRepeatedShared()
    ensures ClassifyLine(RepeatedLines[0]) == RepeatedLex[0]
    ensures ClassifyLine(RepeatedLines[1]) == RepeatedLex[1]
    ensures ClassifyLine(RepeatedLines[2]) == RepeatedLex[2]
    ensures ClassifyLine(RepeatedLines[8]) == RepeatedLex[8]
  {
    LexValidBuild();
    LexValidCommands();
    assert RepeatedLines[0] == ValidLines[0] && RepeatedLines[1] == ValidLines[1];
    assert RepeatedLines[2] == ValidLines[2] && RepeatedLines[8] == ValidLines[8];
  }

  lemma LexRepeated()
    ensures Lex(RepeatedLines) == RepeatedLex
  {
    LexRepeatedShared();
    LexRepeatedFirst();
    LexRepeatedAgain();
    LexRepeatedCommand();
    ClassifyBlank(RepeatedLines[3]);
    ClassifyBlank(RepeatedLines[6]);
    var ls := Lex(RepeatedLines);
    assert ls[0] == RepeatedLex[0] && ls[1] == RepeatedLex[1] && ls[2] == RepeatedLex[2];
    assert ls[3] == RepeatedLex[3] && ls[4] == RepeatedLex[4] && ls[5] == RepeatedLex[5];
    assert ls[6] == RepeatedLex[6] && ls[7] == RepeatedLex[7] && ls[8] == RepeatedLex[8];
    SameNine(ls, RepeatedLex);
  }

  lemma RepeatedLexBlocks()
    ensures RepeatedLex == BlockLines(Build) + ([Skipped] + (BlockLines(PublishFirst) + ([Skipped] + BlockLines(PublishAgain))))
  {
    assert DepsText(PublishFirst.deps) == " build";
    assert DepsText(PublishAgain.deps) == "";
  }

  lemma StoreRepeated()
    ensures Store(Store(Store(NewGraph(), Build), PublishFirst), PublishAgain) == map[
      "build" := Vertex([], ["@echo 'executing build'", "echo 'cmd2'"]),
      "publish" := Vertex([], ["@echo 'executing publish'"])
    ]
  {
    var g1 := Store(NewGraph(), Build);
    assert g1 == map["build" := Vertex(Build.deps, Build.cmds)];
    var g2 := Store(g1, PublishFirst);
    assert g2 == g1["publish" := Vertex(PublishFirst.deps, PublishFirst.cmds)];
    assert g2["publish" := Vertex(PublishAgain.deps, PublishAgain.cmds)]
      == g1["publish" := Vertex(PublishAgain.deps, PublishAgain.cmds)];
  }

  /** The test expects an error for the second `publish:`; the parse gives
      none, and the second definition replaces the first. */
  lemma ParseRepeated()
    ensures Parse(NewGraph(), RepeatedLines) == ParseResult(map[
      "build" := Vertex([], ["@echo 'executing build'", "echo 'cmd2'"]),
      "publish" := Vertex([], ["@echo 'executing publish'"])
    ], None)
  {
    WellFormedValid();
    WellFormedRepeated();
    LexRepeated();
    RepeatedLexBlocks();
    var s0 := Start(NewGraph());
    var rest2 := BlockLines(PublishFirst) + ([Skipped] + BlockLines(PublishAgain));
    RunBlockThen(s0, Build, [Skipped] + rest2);
    var s1 := Run(s0, BlockLines(Build)).state;
    RunSkip(s1, rest2);
    RunBlockThen(s1, PublishFirst, [Skipped] + BlockLines(PublishAgain));
    var s2 := Run(s1, BlockLines(PublishFirst)).state;
    RunSkip(s2, BlockLines(PublishAgain));
    RunBlockThen(s2, PublishAgain, []);
    assert BlockLines(PublishAgain) + [] == BlockLines(PublishAgain);
    StoreRepeated();
  }

  // ---------------------------------------------------------------------
  // Targets without commands are not stored
  // ---------------------------------------------------------------------

  const NoCommandLines: seq<string> := [
    "build:",
    "\t",
    "test: build",
    "\t",
    "publish: test ",
    "\t\t@echo 'executing publish'"
  ]

  const BuildBare := Block("build", [], [])
  const TestBare := Block("test", ["build"], [])

  const NoCommandLex: seq<Line> := [
    Header("build", ""),
    Skipped,
    Header("test", " build"),
    Skipped,
    Header("publish", " test"),
    Command("@echo 'executing publish'")
  ]

  lemma NoCommandShape()
    ensures NoCommandLines[0] == HeaderText(BuildBare)
    ensures NoCommandLines[2] == HeaderText(TestBare)
    ensures NoCommandLines[4] == HeaderText(Publish) + " "
    ensures NoCommandLines[5] == "\t\t" + Publish.cmds[0]
  {
  }

  lemma BareDepsTexts()
    ensures DepsText(BuildBare.deps) == "" && DepsText(TestBare.deps) == " build"
  {
  }

  lemma WellFormedBare()
    ensures WellFormed(BuildBare) && WellFormed(TestBare)
  {
    assert IsWord(TestBare.deps[0]);
  }

  lemma LexNoCommandBuild()
    ensures ClassifyLine(NoCommandLines[0]) == NoCommandLex[0]
  {
    WellFormedBare();
    NoCommandShape();
    BareDepsTexts();
    ClassifyHeaderText(BuildBare);
  }

  lemma LexNoCommandTest()
    ensures ClassifyLine(NoCommandLines[2]) == NoCommandLex[2]
  {
    WellFormedBare();
    NoCommandShape();
    BareDepsTexts();
    ClassifyHeaderText(TestBare);
  }

  lemma LexNoCommandPublish()
    ensures ClassifyLine(NoCommandLines[4]) == NoCommandLex[4]
  {
    WellFormedValid();
    NoCommandShape();
    ValidDepsTexts();
    ClassifyPaddedHeader(Publish, " ");
  }

  lemma LexNoCommandIndented()
    ensures ClassifyLine(NoCommandLines[5]) == NoCommandLex[5]
  {
    WellFormedValid();
    NoCommandShape();
    ClassifyIndented("\t\t", Publish.cmds[0]);
  }

  lemma LexNoCommandBlanks()
    ensures ClassifyLine(NoCommandLines[1]) == NoCommandLex[1]
    ensures ClassifyLine(NoCommandLines[3]) == NoCommandLex[3]
  {
    ClassifyBlank(NoCommandLines[1]);
    ClassifyBlank(NoCommandLines[3]);
  }

  lemma LexNoCommand()
    ensures Lex(NoCommandLines) == NoCommandLex
  {
    LexNoCommandBuild();
    LexNoCommandTest();
    LexNoCommandPublish();
    LexNoCommandIndented();
    LexNoCommandBlanks();
    var ls := Lex(NoCommandLines);
    assert ls[0] == NoCommandLex[0] && ls[1] == NoCommandLex[1] && ls[2] == NoCommandLex[2];
    assert ls[3] == NoCommandLex[3] && ls[4] == NoCommandLex[4] && ls[5] == NoCommandLex[5];
    SameSix(ls, NoCommandLex);
  }

  lemma NoCommandLexBlocks()
    ensures NoCommandLex == BlockLines(BuildBare) + ([Skipped] + (BlockLines(TestBare) + ([Skipped] + BlockLines(Publish))))
  {
    assert DepsText(TestBare.deps) == " build";
    assert DepsText(Publish.deps) == " test";
  }

  /** Only `publish` has a command, so it is the only target stored; the
      check the test calls for afterwards is not part of this model. */
  lemma ParseNoCommand()
    ensures Parse(NewGraph(), NoCommandLines)
      == ParseResult(map["publish" := Vertex(["test"], ["@echo 'executing publish'"])], None)
  {
    WellFormedBare();
    WellFormedValid();
    LexNoCommand();
    NoCommandLexBlocks();
    var s0 := Start(NewGraph());
    var rest2 := BlockLines(TestBare) + ([Skipped] + BlockLines(Publish));
    RunBlockThen(s0, BuildBare, [Skipped] + rest2);
    var s1 := Run(s0, BlockLines(BuildBare)).state;
    RunSkip(s1, rest2);
    RunBlockThen(s1, TestBare, [Skipped] + BlockLines(Publish));
    var s2 := Run(s1, BlockLines(TestBare)).state;
    RunSkip(s2, BlockLines(Publish));
    RunBlockThen(s2, Publish, []);
    assert BlockLines(Publish) + [] == BlockLines(Publish);
  }

  // ---------------------------------------------------------------------
  // Two targets that depend on each other
  // ---------------------------------------------------------------------

  const CyclicLines: seq<string> := [
    "build:",
    "\t\t@echo 'executing build'",
    "\t\t@echo 'cmd2'",
    "\t",
    "test: build publish",
    "\t\t@echo 'executing test'",
    "\t",
    "publish: test ",
    "\t\t@echo 'executing publish'"
  ]

  const BuildEcho := Block("build", [], ["@echo 'executing build'", "@echo 'cmd2'"])
  const TestBoth := Block("test", ["build", "publish"], ["@echo 'executing test'"])

  /** The graph the file parses into: `test` and `publish` depend on each other. */
  const CyclicGraph: Graph := map[
    "build" := Vertex([], ["@echo 'executing build'", "@echo 'cmd2'"]),
    "test" := Vertex(["build", "publish"], ["@echo 'executing test'"]),
    "publish" := Vertex(["test"], ["@echo 'executing publish'"])
  ]

  const CyclicLex: seq<Line> := [
    Header("build", ""),
    Command("@echo 'executing build'"),
    Command("@echo 'cmd2'"),
    Skipped,
    Header("test", " build publish"),
    Command("@echo 'executing test'"),
    Skipped,
    Header("publish", " test"),
    Command("@echo 'executing publish'")
  ]

  lemma CyclicDepsTexts()
    ensures DepsText(BuildEcho.deps) == "" && DepsText(TestBoth.deps) == " build publish"
  {
    assert Join(TestBoth.deps, ' ') == "build publish";
  }

  lemma CyclicHeaderShape()
    ensures CyclicLines[0] == HeaderText(BuildEcho)
    ensures CyclicLines[4] == HeaderText(TestBoth)
    ensures CyclicLines[7] == HeaderText(Publish) + " "
  {
    CyclicDepsTexts();
  }

  lemma CyclicCommandShape()
    ensures CyclicLines[1] == "\t\t" + BuildEcho.cmds[0]
    ensures CyclicLines[2] == "\t\t" + BuildEcho.cmds[1]
    ensures CyclicLines[5] == "\t\t" + TestBoth.cmds[0]
    ensures CyclicLines[8] == "\t\t" + Publish.cmds[0]
  {
  }

  lemma WellFormedCyclic()
    ensures WellFormed(BuildEcho) && WellFormed(TestBoth)
  {
    assert IsCommandText(BuildEcho.cmds[0]) && IsCommandText(BuildEcho.cmds[1]);
    assert IsCommandText(TestBoth.cmds[0]) && IsWord(TestBoth.deps[0]) && IsWord(TestBoth.deps[1]);
  }

  lemma LexCyclicBuild()
    ensures ClassifyLine(CyclicLines[0]) == CyclicLex[0]
  {
    WellFormedCyclic();
    CyclicHeaderShape();
    CyclicDepsTexts();
    ClassifyHeaderText(BuildEcho);
  }

  lemma LexCyclicTest()
    ensures ClassifyLine(CyclicLines[4]) == CyclicLex[4]
  {
    WellFormedCyclic();
    CyclicHeaderShape();
    CyclicDepsTexts();
    ClassifyHeaderLine(CyclicLines[4], TestBoth, CyclicLex[4]);
  }

  lemma LexCyclicPublish()
    ensures ClassifyLine(CyclicLines[7]) == CyclicLex[7]
  {
    WellFormedValid();
    CyclicHeaderShape();
    ValidDepsTexts();
    ClassifyPaddedHeader(Publish, " ");
  }

  lemma LexCyclicBuildCommands()
    ensures ClassifyLine(CyclicLines[1]) == CyclicLex[1]
    ensures ClassifyLine(CyclicLines[2]) == CyclicLex[2]
  {
    WellFormedCyclic();
    CyclicCommandShape();
    ClassifyIndented("\t\t", BuildEcho.cmds[0]);
    ClassifyIndented("\t\t", BuildEcho.cmds[1]);
  }

  lemma LexCyclicOtherCommands()
    ensures ClassifyLine(CyclicLines[5]) == CyclicLex[5]
    ensures ClassifyLine(CyclicLines[8]) == CyclicLex[8]
  {
    WellFormedCyclic();
    WellFormedValid();
    CyclicCommandShape();
    ClassifyIndented("\t\t", TestBoth.cmds[0]);
    ClassifyIndented("\t\t", Publish.cmds[0]);
  }

  lemma LexCyclicBlanks()
    ensures ClassifyLine(CyclicLines[3]) == CyclicLex[3]
    ensures ClassifyLine(CyclicLines[6]) == CyclicLex[6]
  {
    ClassifyBlank(CyclicLines[3]);
    ClassifyBlank(CyclicLines[6]);
  }

  lemma LexCyclic()
    ensures Lex(CyclicLines) == CyclicLex
  {
    LexCyclicBuild();
    LexCyclicTest();
    LexCyclicPublish();
    LexCyclicBuildCommands();
    LexCyclicOtherCommands();
    LexCyclicBlanks();
    var ls := Lex(CyclicLines);
    assert ls[0] == CyclicLex[0] && ls[1] == CyclicLex[1] && ls[2] == CyclicLex[2];
    assert ls[3] == CyclicLex[3] && ls[4] == CyclicLex[4] && ls[5] == CyclicLex[5];
    assert ls[6] == CyclicLex[6] && ls[7] == CyclicLex[7] && ls[8] == CyclicLex[8];
    SameNine(ls, CyclicLex);
  }

  lemma CyclicLexBlocks()
    ensures CyclicLex == BlockLines(BuildEcho) + ([Skipped] + (BlockLines(TestBoth) + ([Skipped] + BlockLines(Publish))))
  {
    CyclicDepsTexts();
    assert DepsText(Publish.deps) == " test";
  }

  /** The file with a cycle parses without error; the cycle is found later. */
  lemma ParseCyclic()
    ensures Parse(NewGraph(), CyclicLines) == ParseResult(CyclicGraph, None)
  {
    WellFormedCyclic();
    WellFormedValid();
    LexCyclic();
    CyclicLexBlocks();
    var s0 := Start(NewGraph());
    var rest2 := BlockLines(TestBoth) + ([Skipped] + BlockLines(Publish));
    RunBlockThen(s0, BuildEcho, [Skipped] + rest2);
    var s1 := Run(s0, BlockLines(BuildEcho)).state;
    RunSkip(s1, rest2);
    RunBlockThen(s1, TestBoth, [Skipped] + BlockLines(Publish));
    var s2 := Run(s1, BlockLines(TestBoth)).state;
    RunSkip(s2, BlockLines(Publish));
    RunBlockThen(s2, Publish, []);
    assert BlockLines(Publish) + [] == BlockLines(Publish);
    var s3 := Run(s2, BlockLines(Publish)).state;
    assert s3.graph == CyclicGraph;
  }
}
