/**
 The data model of `internal/graph.go`: a target (vertex) holds its dependency
 names and its command lines, both in file order, and a graph maps target
 names to vertices. Go's map lookup of a missing key yields the zero vertex;
 `DepsOf` and `CmdsOf` model that lookup.
 */
module Graph {
  import opened Strings

  /** A target: the names it depends on and the commands that build it. */
  datatype Vertex = Vertex(dependencies: seq<string>, cmds: seq<string>)

  /** Target name to vertex. */
  type Graph = map<string, Vertex>

  /** The one error value of the graph engine. */
  datatype Error = ErrTargetNotFound

  datatype Option<T> = None | Some(value: T)

  /** `NewVertex`: no dependencies, no commands. */
  function NewVertex(): (v: Vertex)
    ensures |v.dependencies| == 0 && |v.cmds| == 0
  {
    Vertex([], [])
  }

  /** `NewGraph`: no targets. */
  function NewGraph(): (g: Graph)
    ensures |g| == 0
  {
    map[]
  }

  /** `AddCommand`: the command goes at the end; everything else is kept. */
  function AddCommand(v: Vertex, command: string): (r: Vertex)
    ensures r.dependencies == v.dependencies
    ensures |r.cmds| == |v.cmds| + 1
    ensures r.cmds[..|v.cmds|] == v.cmds && r.cmds[|v.cmds|] == command
  {
    v.(cmds := v.cmds + [command])
  }

  /** `AddDependencies`: the line is cut at every single space and the pieces
      are appended; joining the new pieces with spaces gives the line back. */
  function AddDependencies(v: Vertex, line: string): (r: Vertex)
    ensures r.cmds == v.cmds
    ensures |r.dependencies| == |v.dependencies| + Count(line, ' ') + 1
    ensures r.dependencies[..|v.dependencies|] == v.dependencies
    ensures Join(r.dependencies[|v.dependencies|..], ' ') == line
    ensures forall k :: |v.dependencies| <= k < |r.dependencies| ==> ' ' !in r.dependencies[k]
  {
    var pieces := Split(line, ' ');
    var r := v.(dependencies := v.dependencies + pieces);
    assert r.dependencies[|v.dependencies|..] == pieces;
    r
  }

  /** The dependencies of `name`, or none when `name` is not a target. */
  function DepsOf(g: Graph, name: string): seq<string> {
    if name in g then g[name].dependencies else []
  }

  /** The commands of `name`, or none when `name` is not a target. */
  function CmdsOf(g: Graph, name: string): seq<string> {
    if name in g then g[name].cmds else []
  }
}
