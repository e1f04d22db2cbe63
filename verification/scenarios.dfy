/**
 The checks of `internal/graph_test.go` and `internal/executeCmd_test.go` that
 run after parsing: the cycle check on the two parsed graphs, the order in
 which the commands of `validMakefile` run, and the command the test executes.
 */
module Scenarios {
  import opened Strings
  import opened Graph
  import opened Cycles
  import opened Execution
  import opened Commands
  import opened Fixtures

  /** Every dependency of `validMakefile` ranks lower than its target. */
  lemma ValidRanked()
    ensures forall a, b :: Edge(ValidGraph, a, b) ==> a in ValidRank && b in ValidRank && ValidRank[a] > ValidRank[b]
  {
    forall a, b | Edge(ValidGraph, a, b)
      ensures a in ValidRank && b in ValidRank && ValidRank[a] > ValidRank[b]
    {
      assert (a, b) == ("test", "build") || (a, b) == ("publish", "test");
    }
  }

  const ValidRank: map<string, int> := map["build" := 0, "test" := 1, "publish" := 2]

  /** `validMakefile` has no cycle, so neither check reports one. */
  lemma ValidAcyclic()
    ensures !HasCycle(ValidGraph) && !HasShortCycle(ValidGraph)
  {
    ValidRanked();
    AcyclicByRank(ValidGraph, ValidRank);
    ShortCycleIsCycle(ValidGraph);
  }

  /** In the cyclic file `test` lists `publish` and `publish` lists `test`:
      the check fires at either of them. */
  lemma CyclicFlagged()
    ensures FlagsAt(CyclicGraph, "test", "publish") && FlagsAt(CyclicGraph, "publish", "test")
    ensures HasShortCycle(CyclicGraph) && HasCycle(CyclicGraph)
  {
    assert "publish" in CyclicGraph["test"].dependencies by {
      assert CyclicGraph["test"].dependencies[1] == "publish";
    }
    assert FlagsAt(CyclicGraph, "test", "publish");
    ShortCycleIsCycle(CyclicGraph);
  }

  /** `build` has no dependencies: its own commands run, in file order. */
  lemma ScheduleBuild()
    ensures Schedule(ValidGraph, "build") == ["@echo 'executing build'", "echo 'cmd2'"]
  {
    assert DependencyCmds(ValidGraph, []) == [];
  }

  /** For `publish` the commands of `test` run first, but those of `build`,
      which `test` needs, do not run at all. */
  lemma SchedulePublish()
    ensures Schedule(ValidGraph, "publish") == ["@echo 'executing test'", "@echo 'executing publish'"]
  {
    assert DependencyCmds(ValidGraph, ["test"]) == ["@echo 'executing test'"];
  }

  /** The walk over every dependency runs all of them, deepest first. */
  lemma FullSchedulePublish()
    ensures FullSchedule(ValidGraph, "publish")
      == ["@echo 'executing build'", "echo 'cmd2'", "@echo 'executing test'", "@echo 'executing publish'"]
  {
    assert |ValidGraph| == 3;
    assert WalkAll(ValidGraph, [], 0) == [];
    assert Walk(ValidGraph, "build", 1) == ["@echo 'executing build'", "echo 'cmd2'"];
    assert WalkAll(ValidGraph, ["build"], 1) == ["@echo 'executing build'", "echo 'cmd2'"];
    assert Walk(ValidGraph, "test", 2) == ["@echo 'executing build'", "echo 'cmd2'", "@echo 'executing test'"];
    assert WalkAll(ValidGraph, ["test"], 2) == ["@echo 'executing build'", "echo 'cmd2'", "@echo 'executing test'"];
  }

  /** The command `TestExecCommand` runs. */
  const PublishEcho := "@echo 'executing publish'"

  lemma PublishEchoText()
    ensures Join(["executing", "publish"], ' ') == "executing publish"
    ensures "@" + ("echo" + " '" + "executing publish" + "'") == PublishEcho
  {
    assert Join(["executing", "publish"], ' ') == "executing publish";
  }

  /** The command of the test is printed without its `@`, its quotes are
      dropped, and `echo` is called with two arguments. */
  lemma PreparePublishEcho()
    ensures PrepareCommand(PublishEcho)
      == Prepared(Some("echo 'executing publish'"), Some(Call("echo", ["executing", "publish"])))
  {
    var args := ["executing", "publish"];
    PublishEchoText();
    assert IsWord(args[0]) && IsWord(args[1]) && IsWord("echo");
    QuotesDoNotGroup("echo", args, true);
  }
}
