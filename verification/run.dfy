/**
 The run of `OrderOfExecution` in `internal/graph.go` as it happens, with
 the pure prefix of `ExecCommand` in `internal/executeCmd.go` deciding each
 step. The loops hand the commands of `Schedule` to `ExecCommand` one by one
 and ignore the errors it returns. A command that leaves no word once its `@`
 and quotes are gone makes `ExecCommand` index an empty slice (`parts[0]`):
 Go panics, nothing recovers, and the commands after it are never handed
 over. `HandedOver` is the part of a list of commands that is handed over.

 The list facts hold for any test `starts` of whether a command gets past
 `parts[0]`; `OrderOfExecution` instantiates it with `Starts`.
 */
module Runner {
  import opened Strings
  import opened Graph
  import opened Commands
  import opened Execution

  /** `ExecCommand(cmd)` gets as far as looking up a program: some word is
      left once the `@` and the quotes are removed. */
  predicate Starts(cmd: string) {
    !AllSpace(Words(cmd))
  }

  /** `Starts` is the case where the command yields a program to call. */
  lemma StartsIff(cmd: string)
    ensures Starts(cmd) <==> PrepareCommand(cmd).call.Some?
  {
  }

  /** The commands of `cmds` that reach `ExecCommand`: all of them, or those up
      to and including the first that does not start, where `parts[0]`
      panics and the program dies. */
  function HandedOver(cmds: seq<string>, starts: string -> bool): (r: seq<string>)
    ensures |r| <= |cmds| && r == cmds[..|r|]
    ensures forall k :: 0 <= k < |r| - 1 ==> starts(r[k])
    ensures |r| < |cmds| ==> r != [] && !starts(r[|r| - 1])
    decreases |cmds|
  {
    if cmds == [] then []
    else if !starts(cmds[0]) then [cmds[0]]
    else
      var rest := HandedOver(cmds[1..], starts);
      var r := [cmds[0]] + rest;
      assert r == cmds[..|r|];
      forall k | 0 <= k < |r| - 1 ensures starts(r[k]) {
        if k > 0 { assert r[k] == rest[k - 1]; }
      }
      r
  }

  /** Every command is handed over when all of them start. */
  lemma {:induction false} HandedOverAll(cmds: seq<string>, starts: string -> bool)
    requires forall k :: 0 <= k < |cmds| ==> starts(cmds[k])
    ensures HandedOver(cmds, starts) == cmds
    decreases |cmds|
  {
    if cmds != [] {
      assert starts(cmds[0]);
      forall k | 0 <= k < |cmds| - 1 ensures starts(cmds[1..][k]) {
        assert cmds[1..][k] == cmds[k + 1];
      }
      HandedOverAll(cmds[1..], starts);
      assert [cmds[0]] + cmds[1..] == cmds;
    }
  }

  /** The run ends in a panic exactly when some command does not start: the
      last command handed over is then one that does not. */
  lemma {:induction false} HandedOverPanics(cmds: seq<string>, starts: string -> bool)
    ensures (exists k :: 0 <= k < |cmds| && !starts(cmds[k]))
      <==> HandedOver(cmds, starts) != [] && !starts(HandedOver(cmds, starts)[|HandedOver(cmds, starts)| - 1])
    decreases |cmds|
  {
    if cmds != [] && starts(cmds[0]) {
      var rest := HandedOver(cmds[1..], starts);
      HandedOverPanics(cmds[1..], starts);
      assert HandedOver(cmds, starts) == [cmds[0]] + rest;
      if exists k :: 0 <= k < |cmds| && !starts(cmds[k]) {
        var k :| 0 <= k < |cmds| && !starts(cmds[k]);
        assert cmds[1..][k - 1] == cmds[k];
      }
      if exists k :: 0 <= k < |cmds| - 1 && !starts(cmds[1..][k]) {
        var k :| 0 <= k < |cmds| - 1 && !starts(cmds[1..][k]);
        assert cmds[k + 1] == cmds[1..][k];
      }
    }
  }

  /** A prefix whose commands all start but the last, which does not, is
      exactly what is handed over. */
  lemma {:induction false} HandedOverStop(s: seq<string>, p: seq<string>, starts: string -> bool)
    requires |p| <= |s| && s[..|p|] == p && p != []
    requires forall j :: 0 <= j < |p| - 1 ==> starts(p[j])
    requires !starts(p[|p| - 1])
    ensures HandedOver(s, starts) == p
    decreases |p|
  {
    assert s[0] == p[0];
    if |p| > 1 {
      assert starts(p[0]);
      assert s[1..][..|p| - 1] == p[1..];
      forall j | 0 <= j < |p| - 2 ensures starts(p[1..][j]) {
        assert p[1..][j] == p[j + 1];
      }
      HandedOverStop(s[1..], p[1..], starts);
      assert [p[0]] + p[1..] == p;
    }
  }

  /** The run stops at `c` when everything before it started. */
  lemma StopAfter(s: seq<string>, run: seq<string>, c: string, starts: string -> bool)
    requires |run| < |s| && s[..|run| + 1] == run + [c]
    requires forall j :: 0 <= j < |run| ==> starts(run[j])
    requires !starts(c)
    ensures HandedOver(s, starts) == run + [c]
  {
    var p := run + [c];
    forall j | 0 <= j < |p| - 1 ensures starts(p[j]) {
      assert p[j] == run[j];
    }
    HandedOverStop(s, p, starts);
  }

  /** One step of `HandedOver`. */
  lemma HandedOverCons(c: string, rest: seq<string>, starts: string -> bool)
    ensures starts(c) ==> HandedOver([c] + rest, starts) == [c] + HandedOver(rest, starts)
    ensures !starts(c) ==> HandedOver([c] + rest, starts) == [c]
  {
    assert ([c] + rest)[0] == c && ([c] + rest)[1..] == rest;
  }

  /** Commands that all start are handed over whole, and what follows them
      is handed over as if on its own. */
  lemma {:induction false} HandedOverAfter(a: seq<string>, b: seq<string>, starts: string -> bool)
    requires forall k :: 0 <= k < |a| ==> starts(a[k])
    ensures HandedOver(a + b, starts) == a + HandedOver(b, starts)
    decreases |a|
  {
    if a == [] {
      assert a + b == b;
    } else {
      assert starts(a[0]);
      assert a + b == [a[0]] + (a[1..] + b);
      HandedOverCons(a[0], a[1..] + b, starts);
      forall k | 0 <= k < |a| - 1 ensures starts(a[1..][k]) {
        assert a[1..][k] == a[k + 1];
      }
      HandedOverAfter(a[1..], b, starts);
      assert [a[0]] + a[1..] == a;
    }
  }

  /** Once a command of `a` panics, nothing after `a` is handed over. */
  lemma {:induction false} HandedOverBefore(a: seq<string>, b: seq<string>, starts: string -> bool)
    requires exists k :: 0 <= k < |a| && !starts(a[k])
    ensures HandedOver(a + b, starts) == HandedOver(a, starts)
    decreases |a|
  {
    assert (a + b)[0] == a[0];
    if starts(a[0]) {
      var k :| 0 <= k < |a| && !starts(a[k]);
      assert a[1..][k - 1] == a[k];
      assert (a + b)[1..] == a[1..] + b;
      HandedOverBefore(a[1..], b, starts);
    }
  }

  lemma Regroup(a: seq<string>, b: seq<string>, c: seq<string>)
    ensures a + b + c == a + (b + c)
  {
  }

  /** The run reaches a block of commands after commands that all started.
      It stops inside the block when one of them does not start. */
  lemma StopInBlock(s: seq<string>, run: seq<string>, cmds: seq<string>, rest: seq<string>, starts: string -> bool)
    requires s == run + (cmds + rest)
    requires forall j :: 0 <= j < |run| ==> starts(run[j])
    requires exists k :: 0 <= k < |cmds| && !starts(cmds[k])
    ensures HandedOver(s, starts) == run + HandedOver(cmds, starts)
    ensures exists k :: 0 <= k < |s| && !starts(s[k])
  {
    HandedOverAfter(run, cmds + rest, starts);
    HandedOverBefore(cmds, rest, starts);
    var k :| 0 <= k < |cmds| && !starts(cmds[k]);
    assert s[|run| + k] == cmds[k];
  }

  /** Commands that all start are handed over whole, and none panics. */
  lemma NoPanic(cmds: seq<string>, starts: string -> bool)
    requires forall j :: 0 <= j < |cmds| ==> starts(cmds[j])
    ensures HandedOver(cmds, starts) == cmds
    ensures !exists k :: 0 <= k < |cmds| && !starts(cmds[k])
  {
    HandedOverAll(cmds, starts);
  }

  lemma StartsConcat(a: seq<string>, b: seq<string>, starts: string -> bool)
    requires forall k :: 0 <= k < |a| ==> starts(a[k])
    requires forall k :: 0 <= k < |b| ==> starts(b[k])
    ensures forall k :: 0 <= k < |a + b| ==> starts((a + b)[k])
  {
    forall k | 0 <= k < |a + b| ensures starts((a + b)[k]) {
      if k >= |a| { assert (a + b)[k] == b[k - |a|]; }
    }
  }

  /** `for _, cmd := range cmds { ExecCommand(cmd) }`: each command in turn is
      handed to `ExecCommand` and recorded in `handed`, until one panics. */
  method ExecAll(cmds: seq<string>, starts: string -> bool) returns (handed: seq<string>, panicked: bool)
    ensures handed == HandedOver(cmds, starts)
    ensures panicked <==> exists k :: 0 <= k < |cmds| && !starts(cmds[k])
    ensures !panicked ==> handed == cmds
  {
    handed := [];
    var k := 0;
    while k < |cmds|
      invariant 0 <= k <= |cmds|
      invariant handed == cmds[..k]
      invariant forall j :: 0 <= j < k ==> starts(cmds[j])
    {
      var cmd := cmds[k];
      assert cmds[..k + 1] == handed + [cmd];
      if !starts(cmd) {
        StopAfter(cmds, handed, cmd, starts);
        return handed + [cmd], true;
      }
      handed := handed + [cmd];
      k := k + 1;
    }
    assert handed == cmds;
    HandedOverAll(cmds, starts);
    return handed, false;
  }

  /** The commands of the first `i + 1` dependencies. */
  lemma DependencyStep(g: Graph, deps: seq<string>, i: int)
    requires 0 <= i < |deps|
    ensures DependencyCmds(g, deps[..i + 1]) == DependencyCmds(g, deps[..i]) + CmdsOf(g, deps[i])
  {
    assert deps[..i + 1] == deps[..i] + [deps[i]];
    DependencyCmdsConcat(g, deps[..i], [deps[i]]);
  }

  /** The run over the dependencies stops inside the block of the `i`-th. */
  lemma DependencyStop(g: Graph, deps: seq<string>, i: int, run: seq<string>, starts: string -> bool)
    requires 0 <= i < |deps| && run == DependencyCmds(g, deps[..i])
    requires forall j :: 0 <= j < |run| ==> starts(run[j])
    requires exists k :: 0 <= k < |CmdsOf(g, deps[i])| && !starts(CmdsOf(g, deps[i])[k])
    ensures HandedOver(DependencyCmds(g, deps), starts) == run + HandedOver(CmdsOf(g, deps[i]), starts)
    ensures exists n :: 0 <= n < |DependencyCmds(g, deps)| && !starts(DependencyCmds(g, deps)[n])
  {
    var cmds, rest := CmdsOf(g, deps[i]), DependencyCmds(g, deps[i + 1..]);
    DependencyBlock(g, deps, i);
    Regroup(run, cmds, rest);
    StopInBlock(DependencyCmds(g, deps), run, cmds, rest, starts);
  }

  /** The outer loop of `OrderOfExecution`: the commands of each dependency
      in turn, until one panics. */
  method ExecDependencies(g: Graph, deps: seq<string>, starts: string -> bool) returns (run: seq<string>, panicked: bool)
    ensures run == HandedOver(DependencyCmds(g, deps), starts)
    ensures panicked <==> exists k :: 0 <= k < |DependencyCmds(g, deps)| && !starts(DependencyCmds(g, deps)[k])
    ensures !panicked ==> run == DependencyCmds(g, deps)
  {
    run := [];
    var i := 0;
    while i < |deps|
      invariant 0 <= i <= |deps|
      invariant run == DependencyCmds(g, deps[..i])
      invariant forall j :: 0 <= j < |run| ==> starts(run[j])
    {
      var dep := if deps[i] in g then g[deps[i]] else NewVertex();
      assert dep.cmds == CmdsOf(g, deps[i]);
      var handed, stop := ExecAll(dep.cmds, starts);
      if stop {
        DependencyStop(g, deps, i, run, starts);
        return run + handed, true;
      }
      StartsConcat(run, handed, starts);
      DependencyStep(g, deps, i);
      run := run + handed;
      i := i + 1;
    }
    assert deps[..i] == deps;
    NoPanic(run, starts);
    return run, false;
  }

  /** `OrderOfExecution`: the loops of the source, with the commands handed
      to `ExecCommand` recorded in `run`. A command that leaves no word ends
      the run with the panic, reported in `panicked`. */
  method OrderOfExecution(g: Graph, t: string) returns (run: seq<string>, panicked: bool)
    ensures run == HandedOver(Schedule(g, t), Starts)
    ensures panicked <==> exists k :: 0 <= k < |Schedule(g, t)| && !Starts(Schedule(g, t)[k])
    ensures !panicked ==> run == Schedule(g, t)
  {
    var target := if t in g then g[t] else NewVertex();
    var dependencies := target.dependencies;
    assert dependencies == DepsOf(g, t) && target.cmds == CmdsOf(g, t);
    run := [];
    if |dependencies| > 0 {
      var stop;
      run, stop := ExecDependencies(g, dependencies, Starts);
      if stop {
        var k :| 0 <= k < |DependencyCmds(g, dependencies)| && !Starts(DependencyCmds(g, dependencies)[k]);
        assert Schedule(g, t)[k] == DependencyCmds(g, dependencies)[k];
        HandedOverBefore(DependencyCmds(g, dependencies), target.cmds, Starts);
        return run, true;
      }
    }
    assert run == DependencyCmds(g, dependencies);
    var handed, stop := ExecAll(target.cmds, Starts);
    if stop {
      assert Schedule(g, t) == run + (target.cmds + []);
      StopInBlock(Schedule(g, t), run, target.cmds, [], Starts);
      return run + handed, true;
    }
    StartsConcat(run, handed, Starts);
    HandedOverAll(run + handed, Starts);
    return run + handed, false;
  }
}
