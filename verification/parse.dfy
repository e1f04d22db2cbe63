/**
 `ParseMakeFile` of `internal/graph.go` over the lines of a make file.

 Each line is trimmed first, so the `line[0] != ' '` guard of the source never
 fails: every non-empty, non-comment line that holds a colon is a header,
 whatever it looks like, and every other one is a command of the current
 target. A vertex reaches the map only when it receives a command, and is
 stored again after each further command; a later header of the same name
 starts a fresh vertex that replaces the old entry once it gets a command.
 The only error is a header whose name is empty, and the map keeps what was
 stored before it, because the source mutates the receiver in place.
 */
module Parser {
  import opened Strings
  import opened Graph

  /** How the parser reads one line. */
  datatype Line =
    | Skipped                              // empty or a `#` comment once trimmed
    | Header(name: string, rest: string)   // trimmed name before the first colon; text after it
    | Command(text: string)                // the whole trimmed line

  /** The line is empty or a comment once trimmed. */
  predicate IsBlankOrComment(raw: string) {
    var line := TrimSpace(raw);
    |line| == 0 || HasPrefix(line, "#")
  }

  /** The tests at the head of the loop body: trim, skip, look for a colon and
      split at the first one. */
  function ClassifyLine(raw: string): Line {
    var line := TrimSpace(raw);
    if |line| == 0 || HasPrefix(line, "#") then Skipped
    else if ':' in line && line[0] != ' ' then
      var colonIndex := IndexOf(line, ':');
      Header(TrimSpace(line[..colonIndex]), line[colonIndex + 1..])
    else Command(line)
  }

  /** A header splits the trimmed line at its first colon. */
  lemma HeaderSplitsAtFirstColon(raw: string)
    requires ClassifyLine(raw).Header?
    ensures var l := ClassifyLine(raw);
      var line := TrimSpace(raw);
      var k := |line| - |l.rest| - 1;
      && 0 <= k && line[k] == ':' && ':' !in line[..k]
      && l.name == TrimSpace(line[..k]) && l.rest == line[k + 1..]
  {
    var line := TrimSpace(raw);
    var colonIndex := IndexOf(line, ':');
    assert ClassifyLine(raw) == Header(TrimSpace(line[..colonIndex]), line[colonIndex + 1..]);
  }

  /** Every trimmed line is skipped, a header or a command: the empty ones and
      comments are skipped, any other that holds a colon is a header (the
      `line[0] != ' '` test never fails once the line is trimmed), and the rest
      are commands, kept trimmed. */
  lemma ClassifyLineKinds(raw: string)
    ensures ClassifyLine(raw).Skipped? <==> IsBlankOrComment(raw)
    ensures ClassifyLine(raw).Header? <==> !IsBlankOrComment(raw) && ':' in TrimSpace(raw)
    ensures ClassifyLine(raw).Command? <==> !IsBlankOrComment(raw) && ':' !in TrimSpace(raw)
    ensures ClassifyLine(raw).Command? ==> ClassifyLine(raw).text == TrimSpace(raw) != []
  {
  }

  /** A header with an empty target name: the line that makes the parse fail. */
  predicate IsNameless(l: Line) {
    l.Header? && l.name == ""
  }

  predicate IsNamelessHeader(raw: string) {
    IsNameless(ClassifyLine(raw))
  }

  /** The dependency names a header declares: the text after the colon, trimmed
      and cut at single spaces, or none when nothing follows the colon. */
  function HeaderDeps(rest: string): (deps: seq<string>)
    ensures rest == [] ==> deps == []
    ensures rest != [] ==> Join(deps, ' ') == TrimSpace(rest) && |deps| == Count(TrimSpace(rest), ' ') + 1
  {
    if |rest| > 0 then AddDependencies(NewVertex(), TrimSpace(rest)).dependencies else []
  }

  /** The variables the source's loop carries: the current target, the vertex
      being built and the graph. */
  datatype ParseState = ParseState(target: string, vertex: Vertex, graph: Graph)

  /** The loop either goes on with a new state or has returned. */
  datatype Progress = Running(state: ParseState) | Aborted(graph: Graph)

  /** The result of `ParseMakeFile`: the receiver's map afterwards, and the error returned. */
  datatype ParseResult = ParseResult(graph: Graph, err: Option<Error>)

  /** The state before the first line: target "" and an empty vertex. */
  function Start(g: Graph): (st: ParseState)
    ensures st.target == "" && st.vertex == NewVertex() && st.graph == g
  {
    ParseState("", NewVertex(), g)
  }

  /** The state after the current target receives the commands `cmds`: they
      are appended to its vertex, which is stored under the target's name if
      it received any. */
  function Absorb(st: ParseState, cmds: seq<string>): ParseState {
    var v := Vertex(st.vertex.dependencies, st.vertex.cmds + cmds);
    ParseState(st.target, v, if cmds == [] then st.graph else st.graph[st.target := v])
  }

  /** One turn of the loop, once the line is classified: a skipped line changes
      nothing; a header with an empty name returns with the graph as it is; any
      other header makes its name current with a fresh vertex holding its
      dependencies and leaves the graph alone; a command is appended to the
      current vertex, which is then stored under the current name. */
  function Step(st: ParseState, l: Line): (r: Progress)
    ensures l.Skipped? ==> r == Running(st)
    ensures r.Aborted? <==> IsNameless(l)
    ensures r.Aborted? ==> r.graph == st.graph
    ensures l.Header? && l.name != "" ==>
      r == Running(ParseState(l.name, Vertex(HeaderDeps(l.rest), []), st.graph))
    ensures l.Command? ==> r == Running(Absorb(st, [l.text]))
  {
    match l
    case Skipped => Running(st)
    case Header(name, rest) =>
      if name == "" then Aborted(st.graph)
      else
        var v := if |rest| > 0 then AddDependencies(NewVertex(), TrimSpace(rest)) else NewVertex();
        Running(ParseState(name, v, st.graph))
    case Command(text) =>
      var v := AddCommand(st.vertex, text);
      Running(ParseState(st.target, v, st.graph[st.target := v]))
  }

  /** Every line classified. */
  function Lex(lines: seq<string>): (ls: seq<Line>)
    ensures |ls| == |lines|
    ensures forall i :: 0 <= i < |lines| ==> ls[i] == ClassifyLine(lines[i])
  {
    seq(|lines|, i requires 0 <= i < |lines| => ClassifyLine(lines[i]))
  }

  lemma LexPrefix(lines: seq<string>, i: nat)
    requires i <= |lines|
    ensures Lex(lines[..i]) == Lex(lines)[..i]
  {
  }

  /** The loop over the remaining lines, as a left fold. */
  function Run(st: ParseState, ls: seq<Line>): Progress
    decreases |ls|
  {
    if ls == [] then Running(st)
    else
      match Step(st, ls[0])
      case Aborted(g) => Aborted(g)
      case Running(next) => Run(next, ls[1..])
  }

  /** `ParseMakeFile` on a receiver whose map is `g`. */
  function Parse(g: Graph, lines: seq<string>): ParseResult {
    match Run(Start(g), Lex(lines))
    case Running(st) => ParseResult(st.graph, None)
    case Aborted(h) => ParseResult(h, Some(ErrTargetNotFound))
  }

  /** Scanning goes on from wherever the first part left off. */
  function Then(p: Progress, ls: seq<Line>): Progress {
    match p
    case Aborted(g) => Aborted(g)
    case Running(st) => Run(st, ls)
  }

  lemma {:induction false} RunAppend(st: ParseState, a: seq<Line>, b: seq<Line>)
    ensures Run(st, a + b) == Then(Run(st, a), b)
    decreases |a|
  {
    if a == [] {
      assert a + b == b;
    } else {
      assert (a + b)[0] == a[0];
      assert (a + b)[1..] == a[1..] + b;
      match Step(st, a[0])
      case Aborted(g) =>
      case Running(next) => RunAppend(next, a[1..], b);
    }
  }

  /** The texts of the command lines, in file order. */
  function CommandTexts(ls: seq<Line>): seq<string>
    decreases |ls|
  {
    if ls == [] then []
    else (if ls[0].Command? then [ls[0].text] else []) + CommandTexts(ls[1..])
  }

  /** No line is a header. */
  predicate NoHeader(ls: seq<Line>) {
    forall i :: 0 <= i < |ls| ==> !ls[i].Header?
  }

  lemma AbsorbAppend(st: ParseState, a: seq<string>, b: seq<string>)
    ensures Absorb(Absorb(st, a), b) == Absorb(st, a + b)
  {
    assert st.vertex.cmds + a + b == st.vertex.cmds + (a + b);
    if a != [] && b != [] {
      var v1 := Absorb(st, a).vertex;
      var v2 := Absorb(st, a + b).vertex;
      assert st.graph[st.target := v1][st.target := v2] == st.graph[st.target := v2];
    }
    if b == [] {
      assert a + b == a;
    }
    if a == [] {
      assert a + b == b;
      assert st.vertex.cmds + a == st.vertex.cmds;
    }
  }

  /** Lines without a header all belong to the current target: each command is
      appended to its vertex in order, blank lines and comments change nothing,
      and the vertex is stored under the current name once it has received at
      least one of them. From the start state this files commands written
      before any header under the name "". */
  lemma {:induction false} RunBody(st: ParseState, ls: seq<Line>)
    requires NoHeader(ls)
    ensures Run(st, ls) == Running(Absorb(st, CommandTexts(ls)))
    decreases |ls|
  {
    if ls == [] {
      assert st.vertex.cmds + [] == st.vertex.cmds;
    } else {
      assert NoHeader(ls[1..]) by {
        forall i | 0 <= i < |ls| - 1 ensures !ls[1..][i].Header? {
          assert ls[1..][i] == ls[i + 1];
        }
      }
      var first := if ls[0].Command? then [ls[0].text] else [];
      assert Step(st, ls[0]) == Running(Absorb(st, first)) by {
        if !ls[0].Command? {
          assert st.vertex.cmds + [] == st.vertex.cmds;
        }
      }
      RunBody(Absorb(st, first), ls[1..]);
      AbsorbAppend(st, first, CommandTexts(ls[1..]));
    }
  }

  /** The fold fails exactly when some line is a header with an empty name. */
  lemma {:induction false} RunAbortsIff(st: ParseState, ls: seq<Line>)
    ensures Run(st, ls).Aborted? <==> exists i :: 0 <= i < |ls| && IsNameless(ls[i])
    decreases |ls|
  {
    if ls != [] {
      match Step(st, ls[0])
      case Aborted(g) =>
      case Running(next) =>
        RunAbortsIff(next, ls[1..]);
        if exists i :: 0 <= i < |ls| && IsNameless(ls[i]) {
          var i :| 0 <= i < |ls| && IsNameless(ls[i]);
          assert IsNameless(ls[1..][i - 1]);
        }
        if exists i :: 0 <= i < |ls| - 1 && IsNameless(ls[1..][i]) {
          var i :| 0 <= i < |ls| - 1 && IsNameless(ls[1..][i]);
          assert IsNameless(ls[i + 1]);
        }
    }
  }

  /** The parse fails, with `ErrTargetNotFound`, exactly when some line is a
      header whose name is empty; no other line shape is an error. */
  lemma ParseFailsIff(g: Graph, lines: seq<string>)
    ensures Parse(g, lines).err.Some? <==> exists i :: 0 <= i < |lines| && IsNamelessHeader(lines[i])
  {
    var ls := Lex(lines);
    RunAbortsIff(Start(g), ls);
    if exists i :: 0 <= i < |ls| && IsNameless(ls[i]) {
      var i :| 0 <= i < |ls| && IsNameless(ls[i]);
      assert IsNamelessHeader(lines[i]);
    }
  }

  lemma RunStopsAt(st: ParseState, ls: seq<Line>, i: nat)
    requires i < |ls| && IsNameless(ls[i])
    requires forall j :: 0 <= j < i ==> !IsNameless(ls[j])
    ensures Run(st, ls[..i]).Running?
    ensures Run(st, ls) == Aborted(Run(st, ls[..i]).state.graph)
  {
    var before := ls[..i];
    var tail := ls[i..];
    RunAbortsIff(st, before);
    RunAppend(st, before, tail);
    assert before + tail == ls;
    assert tail[0] == ls[i];
  }

  /** The parse stops at the first header with an empty name, reporting
      `ErrTargetNotFound`, and the map keeps every entry stored before it. */
  lemma StopsAtFirstNamelessHeader(g: Graph, lines: seq<string>, i: nat)
    requires i < |lines| && IsNamelessHeader(lines[i])
    requires forall j :: 0 <= j < i ==> !IsNamelessHeader(lines[j])
    ensures Parse(g, lines) == ParseResult(Parse(g, lines[..i]).graph, Some(ErrTargetNotFound))
  {
    var ls := Lex(lines);
    LexPrefix(lines, i);
    RunStopsAt(Start(g), ls, i);
  }

  /** An invariant of the graph: every stored vertex has a command. */
  predicate AllHaveCommands(g: Graph) {
    forall k :: k in g ==> |g[k].cmds| > 0
  }

  lemma {:induction false} RunKeepsCommandsInvariant(st: ParseState, ls: seq<Line>)
    requires AllHaveCommands(st.graph)
    ensures Run(st, ls).Aborted? ==> AllHaveCommands(Run(st, ls).graph)
    ensures Run(st, ls).Running? ==> AllHaveCommands(Run(st, ls).state.graph)
    decreases |ls|
  {
    if ls != [] {
      match Step(st, ls[0])
      case Aborted(g) =>
      case Running(next) =>
        RunKeepsCommandsInvariant(next, ls[1..]);
    }
  }

  /** A vertex is stored only with a command: parsing into an empty map (or
      any map whose vertices all have commands) yields a map whose every
      vertex has at least one command, error or not. */
  lemma ParsedVerticesHaveCommands(g: Graph, lines: seq<string>)
    requires AllHaveCommands(g)
    ensures AllHaveCommands(Parse(g, lines).graph)
  {
    RunKeepsCommandsInvariant(Start(g), Lex(lines));
  }

  lemma {:induction false} RunKeepsKeys(st: ParseState, ls: seq<Line>)
    ensures Run(st, ls).Aborted? ==> st.graph.Keys <= Run(st, ls).graph.Keys
    ensures Run(st, ls).Running? ==> st.graph.Keys <= Run(st, ls).state.graph.Keys
    decreases |ls|
  {
    if ls != [] {
      match Step(st, ls[0])
      case Aborted(g) =>
      case Running(next) =>
        RunKeepsKeys(next, ls[1..]);
    }
  }

  /** Nothing is ever removed from the map: redefinitions replace, errors keep. */
  lemma ParseKeepsKeys(g: Graph, lines: seq<string>)
    ensures g.Keys <= Parse(g, lines).graph.Keys
  {
    RunKeepsKeys(Start(g), Lex(lines));
  }

  lemma {:induction false} RunWithoutCommands(st: ParseState, ls: seq<Line>)
    requires forall i :: 0 <= i < |ls| ==> !ls[i].Command?
    ensures Run(st, ls).Aborted? ==> Run(st, ls).graph == st.graph
    ensures Run(st, ls).Running? ==> Run(st, ls).state.graph == st.graph
    decreases |ls|
  {
    if ls != [] {
      assert !ls[0].Command?;
      match Step(st, ls[0])
      case Aborted(g) =>
      case Running(next) =>
        assert forall i :: 0 <= i < |ls| - 1 ==> ls[1..][i] == ls[i + 1];
        RunWithoutCommands(next, ls[1..]);
    }
  }

  /** Headers alone store nothing: without a command line the map is unchanged. */
  lemma HeadersAloneStoreNothing(g: Graph, lines: seq<string>)
    requires forall i :: 0 <= i < |lines| ==> !ClassifyLine(lines[i]).Command?
    ensures Parse(g, lines).graph == g
  {
    RunWithoutCommands(Start(g), Lex(lines));
  }

  /** The target that owns line `i`: the name of the last header above it, or
      `t` when there is none. */
  function OwnerOf(t: string, ls: seq<Line>, i: nat): string
    requires i <= |ls|
    decreases i
  {
    if i == 0 then t
    else if ls[i - 1].Header? then ls[i - 1].name
    else OwnerOf(t, ls, i - 1)
  }

  /** Ownership seen from one line further down. */
  lemma {:induction false} OwnerShift(t: string, ls: seq<Line>, i: nat)
    requires ls != [] && i < |ls|
    ensures OwnerOf(t, ls, i + 1) == OwnerOf(if ls[0].Header? then ls[0].name else t, ls[1..], i)
    decreases i
  {
    if i > 0 {
      assert ls[1..][i - 1] == ls[i];
      OwnerShift(t, ls, i - 1);
    }
  }

  /** Some command line is owned by `k`. */
  predicate OwnsCommand(t: string, ls: seq<Line>, k: string) {
    exists i :: 0 <= i < |ls| && ls[i].Command? && OwnerOf(t, ls, i) == k
  }

  lemma {:induction false} RunStoredKeys(st: ParseState, ls: seq<Line>, k: string)
    requires Run(st, ls).Running?
    ensures k in Run(st, ls).state.graph <==> k in st.graph || OwnsCommand(st.target, ls, k)
    decreases |ls|
  {
    if ls != [] {
      var l := ls[0];
      var t' := if l.Header? then l.name else st.target;
      var next := Step(st, l).state;
      assert next.target == t';
      RunStoredKeys(next, ls[1..], k);
      if OwnsCommand(t', ls[1..], k) {
        var i :| 0 <= i < |ls| - 1 && ls[1..][i].Command? && OwnerOf(t', ls[1..], i) == k;
        OwnerShift(st.target, ls, i);
        assert ls[i + 1].Command? && OwnerOf(st.target, ls, i + 1) == k;
      }
      if OwnsCommand(st.target, ls, k) {
        var i :| 0 <= i < |ls| && ls[i].Command? && OwnerOf(st.target, ls, i) == k;
        if i == 0 {
          assert k == st.target && k in next.graph;
        } else {
          OwnerShift(st.target, ls, i - 1);
          assert ls[1..][i - 1] == ls[i];
          assert OwnsCommand(t', ls[1..], k);
        }
      }
      if l.Command? {
        assert OwnerOf(st.target, ls, 0) == st.target;
        assert next.graph.Keys == st.graph.Keys + {st.target};
      } else {
        assert next.graph == st.graph;
      }
    }
  }

  /** When the parse succeeds, a name is a key afterwards exactly when it was
      one before or it owns some command line: a vertex is stored if and only
      if it receives a command, and commands above every header make the name
      "" a key. */
  lemma StoredKeys(g: Graph, lines: seq<string>, k: string)
    requires Parse(g, lines).err == None
    ensures k in Parse(g, lines).graph <==> k in g || OwnsCommand("", Lex(lines), k)
  {
    RunStoredKeys(Start(g), Lex(lines), k);
  }

  lemma ParseFacts(g: Graph, lines: seq<string>)
    ensures Parse(g, lines).err.Some? <==> exists i :: 0 <= i < |lines| && IsNamelessHeader(lines[i])
    ensures g.Keys <= Parse(g, lines).graph.Keys
    ensures AllHaveCommands(g) ==> AllHaveCommands(Parse(g, lines).graph)
  {
    ParseFailsIff(g, lines);
    ParseKeepsKeys(g, lines);
    if AllHaveCommands(g) {
      ParsedVerticesHaveCommands(g, lines);
    }
  }

  /** The body of the source's loop for one line, statement for statement;
      `stop` is set where the source returns `ErrTargetNotFound`. */
  method ParseLine(target: string, vertex: Vertex, g: Graph, raw: string)
    returns (target': string, vertex': Vertex, g': Graph, stop: bool)
    ensures stop <==> IsNamelessHeader(raw)
    ensures stop ==> Step(ParseState(target, vertex, g), ClassifyLine(raw)) == Aborted(g')
    ensures !stop ==> Step(ParseState(target, vertex, g), ClassifyLine(raw)) == Running(ParseState(target', vertex', g'))
  {
    target', vertex', g', stop := target, vertex, g, false;
    var line := TrimSpace(raw);
    if |line| == 0 || HasPrefix(line, "#") {
      assert ClassifyLine(raw) == Skipped;
      return;
    }
    if ':' in line && line[0] != ' ' {
      vertex' := NewVertex();
      var colonIndex := IndexOf(line, ':');
      target' := TrimSpace(line[..colonIndex]);
      assert ClassifyLine(raw) == Header(target', line[colonIndex + 1..]);
      if target' == "" {
        stop := true;
        return;
      }
      if |line| > colonIndex + 1 {
        var deps := TrimSpace(line[colonIndex + 1..]);
        vertex' := AddDependencies(vertex', deps);
      }
      return;
    }
    assert ClassifyLine(raw) == Command(line);
    vertex' := AddCommand(vertex', line);
    g' := g'[target' := vertex'];
  }

  /** The source's loop over the lines. */
  method ParseMakeFile(graph: Graph, lines: seq<string>) returns (g: Graph, err: Option<Error>)
    ensures ParseResult(g, err) == Parse(graph, lines)
    ensures err.Some? <==> exists i :: 0 <= i < |lines| && IsNamelessHeader(lines[i])
    ensures graph.Keys <= g.Keys
    ensures AllHaveCommands(graph) ==> AllHaveCommands(g)
  {
    ghost var ls := Lex(lines);
    var target := "";
    var vertex := NewVertex();
    g := graph;
    var i := 0;
    while i < |lines|
      invariant 0 <= i <= |lines|
      invariant Run(Start(graph), ls) == Run(ParseState(target, vertex, g), ls[i..])
    {
      assert ls[i..][0] == ClassifyLine(lines[i]) && ls[i..][1..] == ls[i + 1..];
      var stop;
      target, vertex, g, stop := ParseLine(target, vertex, g, lines[i]);
      if stop {
        err := Some(ErrTargetNotFound);
        ParseFacts(graph, lines);
        return;
      }
      i := i + 1;
    }
    err := None;
    ParseFacts(graph, lines);
  }
}
