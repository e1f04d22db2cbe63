/**
 `CheckTarget` and `OrderOfExecution` of `internal/graph.go`.

 `OrderOfExecution(t)` runs, in declaration order, the commands of each
 direct dependency of `t` and then the commands of `t` itself. A name that is
 not a target contributes nothing (Go's map lookup yields the empty vertex),
 a dependency listed twice runs twice, and the dependencies of a dependency
 are not looked at. `Schedule` lists the commands in the order the loops
 reach them; the run itself, which a panicking command cuts short, is in
 `run.dfy`.

 The walk the function's comment describes, where every dependency is built
 before the target at any depth, is `Walk`: a pre-order walk of the
 dependency tree to a given depth. The source's order is the walk of depth 1.
 */
module Execution {
  import opened Graph
  import opened Cycles

  /** `CheckTarget`: a scan over the map's keys for `t`. */
  method CheckTarget(g: Graph, t: string) returns (err: Option<Error>)
    ensures err == None <==> t in g
    ensures err != None ==> err == Some(ErrTargetNotFound)
  {
    var todo := g.Keys;
    while todo != {}
      invariant todo <= g.Keys
      invariant t in g <==> t in todo
      decreases |todo|
    {
      var target :| target in todo;
      if t == target {
        return None;
      }
      todo := todo - {target};
    }
    return Some(ErrTargetNotFound);
  }

  /** The commands of each name of `deps` in turn. */
  function DependencyCmds(g: Graph, deps: seq<string>): seq<string>
    decreases |deps|
  {
    if deps == [] then [] else CmdsOf(g, deps[0]) + DependencyCmds(g, deps[1..])
  }

  /** The order in which the loops of `OrderOfExecution(t)` reach the commands. */
  function Schedule(g: Graph, t: string): seq<string> {
    DependencyCmds(g, DepsOf(g, t)) + CmdsOf(g, t)
  }

  lemma {:induction false} DependencyCmdsConcat(g: Graph, a: seq<string>, b: seq<string>)
    ensures DependencyCmds(g, a + b) == DependencyCmds(g, a) + DependencyCmds(g, b)
    decreases |a|
  {
    if a == [] {
      assert a + b == b;
    } else {
      assert (a + b)[1..] == a[1..] + b;
      DependencyCmdsConcat(g, a[1..], b);
    }
  }

  /** The commands of the `j`-th dependency form one block, after those of the
      dependencies before it and before those of the dependencies after it. */
  lemma DependencyBlock(g: Graph, deps: seq<string>, j: int)
    requires 0 <= j < |deps|
    ensures DependencyCmds(g, deps)
      == DependencyCmds(g, deps[..j]) + CmdsOf(g, deps[j]) + DependencyCmds(g, deps[j + 1..])
  {
    assert deps == deps[..j] + ([deps[j]] + deps[j + 1..]);
    DependencyCmdsConcat(g, deps[..j], [deps[j]] + deps[j + 1..]);
    DependencyCmdsConcat(g, [deps[j]], deps[j + 1..]);
  }

  /** A command is run exactly when it belongs to the target or to one of its
      direct dependencies. */
  lemma {:induction false} DependencyCmdsMembers(g: Graph, deps: seq<string>, c: string)
    ensures c in DependencyCmds(g, deps) <==> exists j :: 0 <= j < |deps| && c in CmdsOf(g, deps[j])
    decreases |deps|
  {
    if deps != [] {
      DependencyCmdsMembers(g, deps[1..], c);
      if c in DependencyCmds(g, deps[1..]) {
        var j :| 0 <= j < |deps[1..]| && c in CmdsOf(g, deps[1..][j]);
        assert deps[j + 1] == deps[1..][j];
      }
      if exists j :: 0 <= j < |deps| && c in CmdsOf(g, deps[j]) {
        var j :| 0 <= j < |deps| && c in CmdsOf(g, deps[j]);
        if j > 0 { assert deps[1..][j - 1] == deps[j]; }
      }
    }
  }

  lemma ScheduleMembers(g: Graph, t: string, c: string)
    ensures c in Schedule(g, t) <==>
      c in CmdsOf(g, t) || exists j :: 0 <= j < |DepsOf(g, t)| && c in CmdsOf(g, DepsOf(g, t)[j])
  {
    DependencyCmdsMembers(g, DepsOf(g, t), c);
  }

  /** A dependency that is not a target runs nothing: dropping it from the
      list changes nothing. */
  lemma UnknownDependencySkipped(g: Graph, deps: seq<string>, j: int)
    requires 0 <= j < |deps| && deps[j] !in g
    ensures DependencyCmds(g, deps) == DependencyCmds(g, deps[..j] + deps[j + 1..])
  {
    DependencyBlock(g, deps, j);
    DependencyCmdsConcat(g, deps[..j], deps[j + 1..]);
  }

  // ---------------------------------------------------------------------
  // The dependency-first walk
  // ---------------------------------------------------------------------

  /** The commands of the dependency tree of `t` cut off at `depth` edges, in
      pre-order: each dependency's walk in declaration order, then `t`'s own
      commands. */
  function Walk(g: Graph, t: string, depth: nat): seq<string>
    decreases depth, 0, 0
  {
    if depth == 0 then CmdsOf(g, t) else WalkAll(g, DepsOf(g, t), depth - 1) + CmdsOf(g, t)
  }

  /** The walks of each name of `ds` in turn. */
  function WalkAll(g: Graph, ds: seq<string>, depth: nat): seq<string>
    decreases depth, 1, |ds|
  {
    if ds == [] then [] else Walk(g, ds[0], depth) + WalkAll(g, ds[1..], depth)
  }

  lemma {:induction false} WalkAllConcat(g: Graph, a: seq<string>, b: seq<string>, depth: nat)
    ensures WalkAll(g, a + b, depth) == WalkAll(g, a, depth) + WalkAll(g, b, depth)
    decreases |a|
  {
    if a == [] {
      assert a + b == b;
    } else {
      assert (a + b)[1..] == a[1..] + b;
      WalkAllConcat(g, a[1..], b, depth);
    }
  }

  lemma WalkAllBlock(g: Graph, ds: seq<string>, j: int, depth: nat)
    requires 0 <= j < |ds|
    ensures WalkAll(g, ds, depth)
      == WalkAll(g, ds[..j], depth) + Walk(g, ds[j], depth) + WalkAll(g, ds[j + 1..], depth)
  {
    assert ds == ds[..j] + ([ds[j]] + ds[j + 1..]);
    WalkAllConcat(g, ds[..j], [ds[j]] + ds[j + 1..], depth);
    WalkAllConcat(g, [ds[j]], ds[j + 1..], depth);
  }

  lemma {:induction false} WalkAllZero(g: Graph, ds: seq<string>)
    ensures WalkAll(g, ds, 0) == DependencyCmds(g, ds)
    decreases |ds|
  {
    if ds != [] {
      WalkAllZero(g, ds[1..]);
    }
  }

  /** The source's order is the walk cut off after one edge. */
  lemma ScheduleIsWalkOne(g: Graph, t: string)
    ensures Schedule(g, t) == Walk(g, t, 1)
  {
    WalkAllZero(g, DepsOf(g, t));
  }

  /** `block` sits at position `at` of `s`. */
  predicate OccursAt(block: seq<string>, s: seq<string>, at: int) {
    0 <= at && at + |block| <= |s| && s[at..at + |block|] == block
  }

  lemma OccursInside(block: seq<string>, inner: seq<string>, at: int, pre: seq<string>, post: seq<string>)
    requires OccursAt(block, inner, at)
    ensures OccursAt(block, pre + inner + post, |pre| + at)
  {
    var s := pre + inner + post;
    forall i | 0 <= i < |block| ensures s[|pre| + at + i] == block[i] {
      assert inner[at..at + |block|][i] == inner[at + i];
    }
    assert s[|pre| + at..|pre| + at + |block|] == block;
  }

  /** The walk ends with the target's own commands. */
  lemma WalkOwnLast(g: Graph, t: string, depth: nat)
    ensures |CmdsOf(g, t)| <= |Walk(g, t, depth)|
    ensures OccursAt(CmdsOf(g, t), Walk(g, t, depth), |Walk(g, t, depth)| - |CmdsOf(g, t)|)
  {
    var w := Walk(g, t, depth);
    var own := CmdsOf(g, t);
    var deps := if depth == 0 then [] else WalkAll(g, DepsOf(g, t), depth - 1);
    assert w == deps + own;
    assert w[|w| - |own|..|w| - |own| + |own|] == own;
  }

  /** A block of a dependency's walk is a block of the target's walk, before
      the target's own commands. */
  lemma WalkChild(g: Graph, t: string, depth: nat, j: int, block: seq<string>, at': int) returns (at: int)
    requires depth >= 1 && 0 <= j < |DepsOf(g, t)|
    requires OccursAt(block, Walk(g, DepsOf(g, t)[j], depth - 1), at')
    ensures OccursAt(block, Walk(g, t, depth), at)
    ensures at + |block| <= |Walk(g, t, depth)| - |CmdsOf(g, t)|
  {
    var deps := DepsOf(g, t);
    var own := CmdsOf(g, t);
    var inner := Walk(g, deps[j], depth - 1);
    WalkAllBlock(g, deps, j, depth - 1);
    var before := WalkAll(g, deps[..j], depth - 1);
    var after := WalkAll(g, deps[j + 1..], depth - 1);
    assert Walk(g, t, depth) == WalkAll(g, deps, depth - 1) + own;
    assert WalkAll(g, deps, depth - 1) == before + inner + after;
    assert Walk(g, t, depth) == before + inner + (after + own);
    OccursInside(block, inner, at', before, after + own);
    at := |before| + at';
  }

  /** Every target reachable from `t` within `depth` edges has its commands
      run as one block of the walk, and when it is not `t` itself, before the
      commands of `t`. */
  lemma {:induction false} WalkCoversPath(g: Graph, p: seq<string>, depth: nat) returns (at: int)
    requires |p| >= 1 && IsPath(g, p) && |p| - 1 <= depth
    ensures OccursAt(CmdsOf(g, p[|p| - 1]), Walk(g, p[0], depth), at)
    ensures |p| >= 2 ==> at + |CmdsOf(g, p[|p| - 1])| <= |Walk(g, p[0], depth)| - |CmdsOf(g, p[0])|
    decreases |p|
  {
    if |p| == 1 {
      WalkOwnLast(g, p[0], depth);
      at := |Walk(g, p[0], depth)| - |CmdsOf(g, p[0])|;
    } else {
      assert Edge(g, p[0], p[1]);
      var j :| 0 <= j < |DepsOf(g, p[0])| && DepsOf(g, p[0])[j] == p[1];
      var q := p[1..];
      assert IsPath(g, q) by {
        forall i | 0 <= i < |q| - 1 ensures Edge(g, q[i], q[i + 1]) {
          assert q[i] == p[i + 1] && q[i + 1] == p[i + 2];
        }
      }
      var at' := WalkCoversPath(g, q, depth - 1);
      assert q[|q| - 1] == p[|p| - 1];
      at := WalkChild(g, p[0], depth, j, CmdsOf(g, p[|p| - 1]), at');
    }
  }

  /** The dependency-first order: the walk deep enough to reach every target
      that `t` reaches (on a graph with a cycle the walk is cut off there). */
  function FullSchedule(g: Graph, t: string): seq<string> {
    Walk(g, t, |g|)
  }

  /** Every target that `t` depends on, directly or not, has its commands run
      as one block before the commands of `t`. */
  lemma FullScheduleCovers(g: Graph, t: string, x: string) returns (at: int)
    requires Reaches(g, t, x)
    ensures OccursAt(CmdsOf(g, x), FullSchedule(g, t), at)
    ensures at + |CmdsOf(g, x)| <= |FullSchedule(g, t)| - |CmdsOf(g, t)|
  {
    var p := ReachesWithin(g, t, x);
    at := WalkCoversPath(g, p, |g|);
  }

  lemma {:induction false} WalkAllMembers(g: Graph, ds: seq<string>, depth: nat, c: string) returns (j: int)
    requires c in WalkAll(g, ds, depth)
    ensures 0 <= j < |ds| && c in Walk(g, ds[j], depth)
    decreases |ds|
  {
    if c in Walk(g, ds[0], depth) {
      j := 0;
    } else {
      var j' := WalkAllMembers(g, ds[1..], depth, c);
      j := j' + 1;
    }
  }

  /** Nothing else runs: every command of the walk belongs to `t` or to a
      target that `t` reaches. */
  lemma {:induction false} WalkOnlyReachable(g: Graph, t: string, depth: nat, c: string)
    requires c in Walk(g, t, depth)
    ensures c in CmdsOf(g, t) || exists x :: Reaches(g, t, x) && c in CmdsOf(g, x)
    decreases depth
  {
    if depth > 0 && c !in CmdsOf(g, t) {
      var deps := DepsOf(g, t);
      var j := WalkAllMembers(g, deps, depth - 1, c);
      var u := deps[j];
      assert Edge(g, t, u);
      WalkOnlyReachable(g, u, depth - 1, c);
      if c in CmdsOf(g, u) {
        assert IsPath(g, [t, u]);
        assert Reaches(g, t, u);
      } else {
        var x :| Reaches(g, u, x) && c in CmdsOf(g, x);
        ReachesPrepend(g, t, u, x);
      }
    }
  }

  /** The source misses the commands two edges away: in `a -> b -> c` the
      commands of `c` are not run for `a`, while the walk runs them first. */
  lemma GrandDependencySkipped()
    ensures var g := map["a" := Vertex(["b"], ["x"]), "b" := Vertex(["c"], ["y"]), "c" := Vertex([], ["z"])];
      && Schedule(g, "a") == ["y", "x"]
      && Walk(g, "a", 2) == ["z", "y", "x"]
  {
    var g := map["a" := Vertex(["b"], ["x"]), "b" := Vertex(["c"], ["y"]), "c" := Vertex([], ["z"])];
    assert DependencyCmds(g, ["b"]) == ["y"];
    assert WalkAll(g, ["c"], 0) == ["z"];
    assert Walk(g, "b", 1) == ["z", "y"];
    assert WalkAll(g, ["b"], 1) == ["z", "y"];
  }
}
