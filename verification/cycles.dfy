/**
 `CheckCyclicDependency` of `internal/graph.go`. For every target `t` and every
 dependency `d` of `t`, it looks `d` up (a missing name gives the empty vertex)
 and reports `t` when `d` lists `t` among its own dependencies. That catches a
 target that depends on itself and two targets that depend on each other,
 and nothing longer: `a -> b -> c -> a` passes.

 The cycle notion the check is meant to implement is a path along dependency
 edges that returns to its start. `FindsCycle` / `DetectCycle` is a detector
 for it: target `t` is on a cycle exactly when `t` is among the names reachable
 from `t` in one or more steps, and that set is computed as a fixpoint.
 */
module Cycles {
  import opened Graph

  /** `b` is a direct dependency of the target `a`. */
  predicate Edge(g: Graph, a: string, b: string) {
    a in g && b in g[a].dependencies
  }

  /** `p` follows dependency edges from its first name to its last. */
  predicate IsPath(g: Graph, p: seq<string>) {
    forall i :: 0 <= i < |p| - 1 ==> Edge(g, p[i], p[i + 1])
  }

  /** A path of at least one edge that ends where it starts. */
  predicate IsCycle(g: Graph, p: seq<string>) {
    |p| >= 2 && IsPath(g, p) && p[0] == p[|p| - 1]
  }

  /** Some target depends on itself, directly or through other targets. */
  ghost predicate HasCycle(g: Graph) {
    exists p :: IsCycle(g, p)
  }

  // ---------------------------------------------------------------------
  // The check as written
  // ---------------------------------------------------------------------

  /** The test in the innermost loop: `d` is a dependency of `t` and the vertex
      stored under `d` (the empty one when there is none) lists `t`. */
  predicate FlagsAt(g: Graph, t: string, d: string) {
    t in g && d in g[t].dependencies && t in DepsOf(g, d)
  }

  /** The check reports some target. */
  ghost predicate HasShortCycle(g: Graph) {
    exists t, d :: FlagsAt(g, t, d)
  }

  /** The three nested loops. The map is visited in no particular order (Go
      randomises it), so the target picked next is any one not yet visited;
      the target reported is one at which the test fires. */
  method CheckCyclicDependency(g: Graph) returns (cyclic: bool, culprit: string)
    ensures cyclic <==> HasShortCycle(g)
    ensures cyclic ==> exists d :: FlagsAt(g, culprit, d)
  {
    var todo := g.Keys;
    while todo != {}
      invariant todo <= g.Keys
      invariant forall t, d :: t in g && t !in todo ==> !FlagsAt(g, t, d)
      decreases |todo|
    {
      var t :| t in todo;
      var deps := g[t].dependencies;
      var i := 0;
      while i < |deps|
        invariant 0 <= i <= |deps|
        invariant forall j :: 0 <= j < i ==> t !in DepsOf(g, deps[j])
      {
        var v := if deps[i] in g then g[deps[i]] else NewVertex();
        var k := 0;
        while k < |v.dependencies|
          invariant 0 <= k <= |v.dependencies|
          invariant forall j :: 0 <= j < k ==> v.dependencies[j] != t
        {
          if v.dependencies[k] == t {
            assert FlagsAt(g, t, deps[i]);
            return true, t;
          }
          k := k + 1;
        }
        i := i + 1;
      }
      forall d ensures !FlagsAt(g, t, d) {
        if d in deps {
          var j :| 0 <= j < |deps| && deps[j] == d;
        }
      }
      todo := todo - {t};
    }
    return false, "";
  }

  /** What the check finds is exactly a cycle through one or two targets. */
  lemma ShortCycleIff(g: Graph)
    ensures HasShortCycle(g) <==> exists a, b :: Edge(g, a, b) && Edge(g, b, a)
  {
    if HasShortCycle(g) {
      var t, d :| FlagsAt(g, t, d);
      assert Edge(g, t, d) && Edge(g, d, t);
    }
    if exists a, b :: Edge(g, a, b) && Edge(g, b, a) {
      var a, b :| Edge(g, a, b) && Edge(g, b, a);
      assert FlagsAt(g, a, b);
    }
  }

  /** Everything the check reports is a real cycle. */
  lemma ShortCycleIsCycle(g: Graph)
    ensures HasShortCycle(g) ==> HasCycle(g)
  {
    if HasShortCycle(g) {
      var t, d :| FlagsAt(g, t, d);
      assert IsCycle(g, [t, d, t]);
    }
  }

  /** The check misses a cycle through three targets. */
  lemma ThreeCycleMissed()
    ensures var g := map["a" := Vertex(["b"], ["x"]), "b" := Vertex(["c"], ["y"]), "c" := Vertex(["a"], ["z"])];
      HasCycle(g) && !HasShortCycle(g)
  {
    var g := map["a" := Vertex(["b"], ["x"]), "b" := Vertex(["c"], ["y"]), "c" := Vertex(["a"], ["z"])];
    assert IsCycle(g, ["a", "b", "c", "a"]);
    forall t, d ensures !FlagsAt(g, t, d) {
      if t in g && d in g[t].dependencies {
        assert (t, d) == ("a", "b") || (t, d) == ("b", "c") || (t, d) == ("c", "a");
      }
    }
  }

  /** Along a path whose every edge goes down in `rank`, the rank of the
      first name is above that of the last. */
  lemma {:induction false} RankFalls(g: Graph, rank: map<string, int>, p: seq<string>)
    requires forall a, b :: Edge(g, a, b) ==> a in rank && b in rank && rank[a] > rank[b]
    requires |p| >= 2 && IsPath(g, p)
    ensures p[0] in rank && p[|p| - 1] in rank && rank[p[0]] > rank[p[|p| - 1]]
  {
    assert Edge(g, p[0], p[1]);
    if |p| > 2 {
      var q := p[1..];
      forall i | 0 <= i < |q| - 1 ensures Edge(g, q[i], q[i + 1]) {
        assert Edge(g, p[i + 1], p[i + 2]);
      }
      RankFalls(g, rank, q);
      assert q[|q| - 1] == p[|p| - 1];
    }
  }

  /** A ranking of the targets under which every dependency ranks lower (a
      topological order) shows that there is no cycle. */
  lemma AcyclicByRank(g: Graph, rank: map<string, int>)
    requires forall a, b :: Edge(g, a, b) ==> a in rank && b in rank && rank[a] > rank[b]
    ensures !HasCycle(g)
  {
    forall p ensures !IsCycle(g, p) {
      if |p| >= 2 && IsPath(g, p) {
        RankFalls(g, rank, p);
      }
    }
  }

  // ---------------------------------------------------------------------
  // A detector for every cycle
  // ---------------------------------------------------------------------

  /** The names one edge away from some name in `r`. */
  function Succ(g: Graph, r: set<string>): set<string> {
    set u, d | u in r && u in g && d in g[u].dependencies :: d
  }

  /** Every name the graph mentions. */
  function Nodes(g: Graph): set<string> {
    g.Keys + Succ(g, g.Keys)
  }

  lemma SuccWithin(g: Graph, r: set<string>)
    ensures Succ(g, r) <= Nodes(g)
  {
    forall d | d in Succ(g, r) ensures d in Succ(g, g.Keys) {
      var u :| u in r && u in g && d in g[u].dependencies;
    }
  }

  lemma {:induction false} SubsetCardLe(a: set<string>, b: set<string>)
    requires a <= b
    ensures |a| <= |b|
    decreases |a|
  {
    if a != {} {
      var y :| y in a;
      SubsetCardLe(a - {y}, b - {y});
    }
  }

  lemma SubsetCard(a: set<string>, b: set<string>)
    requires a < b
    ensures |a| < |b|
  {
    var x :| x in b && x !in a;
    SubsetCardLe(a, b - {x});
  }

  /** The least set containing `r` and closed under `Succ`. */
  function Close(g: Graph, r: set<string>): (c: set<string>)
    requires r <= Nodes(g)
    ensures r <= c && Succ(g, c) <= c
    decreases |Nodes(g) - r|
  {
    SuccWithin(g, r);
    var next := r + Succ(g, r);
    if next == r then r
    else
      SubsetCard(Nodes(g) - next, Nodes(g) - r);
      Close(g, next)
  }

  /** The names reachable from `t` in one or more steps. */
  function Reach(g: Graph, t: string): set<string> {
    SuccWithin(g, {t});
    Close(g, Succ(g, {t}))
  }

  /** The corrected check: some target reaches itself. */
  predicate FindsCycle(g: Graph) {
    exists t :: t in g && t in Reach(g, t)
  }

  /** There is a path of at least one edge from `t` to `x`. */
  ghost predicate Reaches(g: Graph, t: string, x: string) {
    exists p :: |p| >= 2 && IsPath(g, p) && p[0] == t && p[|p| - 1] == x
  }

  lemma ReachesStep(g: Graph, t: string, x: string, y: string)
    requires Reaches(g, t, x) && Edge(g, x, y)
    ensures Reaches(g, t, y)
  {
    var p :| |p| >= 2 && IsPath(g, p) && p[0] == t && p[|p| - 1] == x;
    var q := p + [y];
    assert IsPath(g, q) by {
      forall i | 0 <= i < |q| - 1 ensures Edge(g, q[i], q[i + 1]) {
        if i < |p| - 1 {
          assert q[i] == p[i] && q[i + 1] == p[i + 1];
        }
      }
    }
    assert q[0] == t && q[|q| - 1] == y;
  }

  lemma ReachesPrepend(g: Graph, t: string, u: string, x: string)
    requires Edge(g, t, u) && Reaches(g, u, x)
    ensures Reaches(g, t, x)
  {
    var p :| |p| >= 2 && IsPath(g, p) && p[0] == u && p[|p| - 1] == x;
    var q := [t] + p;
    assert IsPath(g, q) by {
      forall i | 0 <= i < |q| - 1 ensures Edge(g, q[i], q[i + 1]) {
        if i > 0 {
          assert q[i] == p[i - 1] && q[i + 1] == p[i];
        }
      }
    }
    assert q[0] == t && q[|q| - 1] == x;
  }

  /** No name occurs twice. */
  predicate Distinct(s: seq<string>) {
    forall i, j :: 0 <= i < j < |s| ==> s[i] != s[j]
  }

  lemma {:induction false} DistinctCard(s: seq<string>)
    requires Distinct(s)
    ensures |(set k | 0 <= k < |s| :: s[k])| == |s|
    decreases |s|
  {
    if s != [] {
      var init := s[..|s| - 1];
      assert Distinct(init) by {
        forall i, j | 0 <= i < j < |init| ensures init[i] != init[j] {
          assert init[i] == s[i] && init[j] == s[j];
        }
      }
      DistinctCard(init);
      var a := set k | 0 <= k < |init| :: init[k];
      var b := set k | 0 <= k < |s| :: s[k];
      assert b == a + {s[|s| - 1]} by {
        forall x | x in b ensures x in a || x == s[|s| - 1] {
          var k :| 0 <= k < |s| && s[k] == x;
          if k < |s| - 1 { assert init[k] == s[k]; }
        }
        forall x | x in a ensures x in b {
          var k :| 0 <= k < |init| && init[k] == x;
          assert s[k] == init[k];
        }
      }
      assert s[|s| - 1] !in a by {
        forall k | 0 <= k < |init| ensures init[k] != s[|s| - 1] {
          assert init[k] == s[k];
        }
      }
    }
  }

  /** Cutting the loop between two visits of the same name leaves a path with
      the same ends. */
  lemma CutLoop(g: Graph, p: seq<string>, i: int, j: int)
    requires IsPath(g, p) && 0 <= i < j < |p| && p[i] == p[j]
    ensures IsPath(g, p[..i] + p[j..])
  {
    var r := p[..i] + p[j..];
    forall k | 0 <= k < |r| - 1 ensures Edge(g, r[k], r[k + 1]) {
      if k < i - 1 {
        assert r[k] == p[k] && r[k + 1] == p[k + 1];
      } else if k == i - 1 {
        assert r[k] == p[i - 1] && r[k + 1] == p[j] == p[i];
      } else {
        assert r[k] == p[k - i + j] && r[k + 1] == p[k - i + j + 1];
      }
    }
  }

  /** Any path can be shortened to one that visits no name twice before its end. */
  lemma {:induction false} ShortenPath(g: Graph, p: seq<string>) returns (q: seq<string>)
    requires |p| >= 2 && IsPath(g, p)
    ensures |q| >= 2 && IsPath(g, q) && q[0] == p[0] && q[|q| - 1] == p[|p| - 1]
    ensures Distinct(q[..|q| - 1])
    decreases |p|
  {
    if Distinct(p[..|p| - 1]) {
      q := p;
    } else {
      var i, j :| 0 <= i < j < |p| - 1 && p[..|p| - 1][i] == p[..|p| - 1][j];
      var r := p[..i] + p[j..];
      CutLoop(g, p, i, j);
      assert r[0] == p[0] by {
        if i == 0 { assert r[0] == p[j] == p[i]; }
      }
      assert r[|r| - 1] == p[|p| - 1];
      q := ShortenPath(g, r);
    }
  }

  /** Whatever `t` reaches it reaches in at most as many steps as there are targets. */
  lemma ReachesWithin(g: Graph, t: string, x: string) returns (p: seq<string>)
    requires Reaches(g, t, x)
    ensures |p| >= 2 && IsPath(g, p) && p[0] == t && p[|p| - 1] == x
    ensures |p| - 1 <= |g|
  {
    var p0 :| |p0| >= 2 && IsPath(g, p0) && p0[0] == t && p0[|p0| - 1] == x;
    p := ShortenPath(g, p0);
    var s := p[..|p| - 1];
    DistinctCard(s);
    var names := set k | 0 <= k < |s| :: s[k];
    assert names <= g.Keys by {
      forall y | y in names ensures y in g {
        var k :| 0 <= k < |s| && s[k] == y;
        assert Edge(g, p[k], p[k + 1]);
      }
    }
    SubsetCardLe(names, g.Keys);
  }

  /** Closing a set of names reachable from `t` adds only names reachable from `t`. */
  lemma {:induction false} CloseSound(g: Graph, t: string, r: set<string>)
    requires r <= Nodes(g)
    requires forall x :: x in r ==> Reaches(g, t, x)
    ensures forall x :: x in Close(g, r) ==> Reaches(g, t, x)
    decreases |Nodes(g) - r|
  {
    SuccWithin(g, r);
    var next := r + Succ(g, r);
    if next != r {
      forall y | y in Succ(g, r) ensures Reaches(g, t, y) {
        var u :| u in r && u in g && y in g[u].dependencies;
        ReachesStep(g, t, u, y);
      }
      SubsetCard(Nodes(g) - next, Nodes(g) - r);
      CloseSound(g, t, next);
    }
  }

  /** A set closed under `Succ` that holds the second name of a path holds
      every later one. */
  lemma {:induction false} ClosedHoldsPath(g: Graph, c: set<string>, p: seq<string>, i: int)
    requires Succ(g, c) <= c
    requires IsPath(g, p) && |p| >= 2 && p[1] in c
    requires 1 <= i < |p|
    ensures p[i] in c
    decreases i
  {
    if i > 1 {
      ClosedHoldsPath(g, c, p, i - 1);
      assert Edge(g, p[i - 1], p[i]);
      assert p[i] in Succ(g, c);
    }
  }

  /** `Reach` is exactly the set of names reachable from `t`. */
  lemma ReachIff(g: Graph, t: string, x: string)
    ensures x in Reach(g, t) <==> Reaches(g, t, x)
  {
    SuccWithin(g, {t});
    var r := Succ(g, {t});
    forall y | y in r ensures Reaches(g, t, y) {
      assert IsPath(g, [t, y]);
    }
    CloseSound(g, t, r);
    if Reaches(g, t, x) {
      var p :| |p| >= 2 && IsPath(g, p) && p[0] == t && p[|p| - 1] == x;
      assert Edge(g, p[0], p[1]);
      assert p[1] in r;
      ClosedHoldsPath(g, Reach(g, t), p, |p| - 1);
    }
  }

  /** The corrected check finds a cycle exactly when there is one. */
  lemma FindsCycleIff(g: Graph)
    ensures FindsCycle(g) <==> HasCycle(g)
  {
    if FindsCycle(g) {
      var t :| t in g && t in Reach(g, t);
      ReachIff(g, t, t);
      var p :| |p| >= 2 && IsPath(g, p) && p[0] == t && p[|p| - 1] == t;
      assert IsCycle(g, p);
    }
    if HasCycle(g) {
      var p :| IsCycle(g, p);
      var t := p[0];
      assert Edge(g, p[0], p[1]);
      assert Reaches(g, t, t);
      ReachIff(g, t, t);
    }
  }

  /** The corrected check as a loop over the targets, reporting one that lies
      on a cycle. */
  method DetectCycle(g: Graph) returns (cyclic: bool, culprit: string)
    ensures cyclic <==> HasCycle(g)
    ensures cyclic ==> culprit in g && Reaches(g, culprit, culprit)
  {
    FindsCycleIff(g);
    var todo := g.Keys;
    while todo != {}
      invariant todo <= g.Keys
      invariant forall t :: t in g && t !in todo ==> t !in Reach(g, t)
      decreases |todo|
    {
      var t :| t in todo;
      if t in Reach(g, t) {
        ReachIff(g, t, t);
        return true, t;
      }
      todo := todo - {t};
    }
    return false, "";
  }

  /** On the three-target cycle the corrected check reports a target. */
  lemma ThreeCycleFound()
    ensures FindsCycle(map["a" := Vertex(["b"], ["x"]), "b" := Vertex(["c"], ["y"]), "c" := Vertex(["a"], ["z"])])
  {
    var g := map["a" := Vertex(["b"], ["x"]), "b" := Vertex(["c"], ["y"]), "c" := Vertex(["a"], ["z"])];
    assert IsCycle(g, ["a", "b", "c", "a"]);
    FindsCycleIff(g);
  }
}
