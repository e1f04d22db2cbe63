/**
 The parse of a make file written out from a list of targets: each target is
 a header `name: dep1 dep2 ...` (or `name:` without dependencies) followed by
 its commands, one per line, indented with a tab. Parsing such a file never
 fails and gives every target that has commands its declared dependencies and
 commands in order; a target written twice ends up with its last definition
 that had commands, and a target without commands is not stored.
 */
module RoundTrip {
  import opened Strings
  import opened Graph
  import opened Parser

  /** One target as the file declares it. */
  datatype Block = Block(name: string, deps: seq<string>, cmds: seq<string>)

  /** A command the parser reads back unchanged: trimmed, not a comment, no colon. */
  predicate IsCommandText(c: string) {
    c != [] && IsTrimmed(c) && c[0] != '#' && ':' !in c
  }

  /** A block whose lines read back as written: the name is one word without a
      colon that does not start a comment, every dependency is one word, and
      every command reads back unchanged. */
  predicate WellFormed(b: Block) {
    && IsWord(b.name) && b.name[0] != '#' && ':' !in b.name
    && (forall k :: 0 <= k < |b.deps| ==> IsWord(b.deps[k]))
    && (forall k :: 0 <= k < |b.cmds| ==> IsCommandText(b.cmds[k]))
  }

  /** The text after the colon of a header. */
  function DepsText(deps: seq<string>): string {
    if deps == [] then "" else " " + Join(deps, ' ')
  }

  function HeaderText(b: Block): string {
    b.name + ":" + DepsText(b.deps)
  }

  function Indent(cmds: seq<string>): (lines: seq<string>)
    ensures |lines| == |cmds|
    ensures forall k :: 0 <= k < |cmds| ==> lines[k] == "\t" + cmds[k]
  {
    seq(|cmds|, k requires 0 <= k < |cmds| => "\t" + cmds[k])
  }

  /** The file text of a list of targets, one line per element. */
  function Render(bs: seq<Block>): seq<string>
    decreases |bs|
  {
    if bs == [] then [] else [HeaderText(bs[0])] + Indent(bs[0].cmds) + Render(bs[1..])
  }

  function CommandLines(cmds: seq<string>): (ls: seq<Line>)
    ensures |ls| == |cmds|
    ensures forall k :: 0 <= k < |cmds| ==> ls[k] == Command(cmds[k])
  {
    seq(|cmds|, k requires 0 <= k < |cmds| => Command(cmds[k]))
  }

  /** How the parser classifies the lines of one block. */
  function BlockLines(b: Block): seq<Line> {
    [Header(b.name, DepsText(b.deps))] + CommandLines(b.cmds)
  }

  function AllBlockLines(bs: seq<Block>): seq<Line>
    decreases |bs|
  {
    if bs == [] then [] else BlockLines(bs[0]) + AllBlockLines(bs[1..])
  }

  /** The map after one block: its vertex replaces any earlier one of the same
      name if the block has commands; otherwise nothing changes. */
  function Store(g: Graph, b: Block): Graph {
    if b.cmds == [] then g else g[b.name := Vertex(b.deps, b.cmds)]
  }

  /** The map after all blocks, in file order. */
  function Expected(g: Graph, bs: seq<Block>): Graph
    decreases |bs|
  {
    if bs == [] then g else Expected(Store(g, bs[0]), bs[1..])
  }

  /** Words joined with single spaces start and end with a non-space character. */
  lemma {:induction false} JoinWordsTrimmed(words: seq<string>)
    requires words != []
    requires forall k :: 0 <= k < |words| ==> IsWord(words[k])
    ensures Join(words, ' ') != [] && IsTrimmed(Join(words, ' '))
    ensures Join(words, ' ')[0] == words[0][0]
    decreases |words|
  {
    if |words| > 1 {
      JoinWordsTrimmed(words[1..]);
      var rest := Join(words[1..], ' ');
      var s := words[0] + [' '] + rest;
      assert s[|s| - 1] == rest[|rest| - 1];
    }
  }

  /** A header line needs no trimming. */
  lemma HeaderTextTrimmed(b: Block)
    requires WellFormed(b)
    ensures TrimSpace(HeaderText(b)) == HeaderText(b)
  {
    var line := HeaderText(b);
    assert line[0] == b.name[0];
    assert IsTrimmed(line) by {
      if b.deps == [] {
        assert line[|line| - 1] == ':';
      } else {
        JoinWordsTrimmed(b.deps);
        var j := Join(b.deps, ' ');
        assert line[|line| - 1] == j[|j| - 1];
      }
    }
    TrimSpacePadded("", line, "");
    assert "" + line + "" == line;
  }

  /** The first colon of a header line is the one after the name. */
  lemma HeaderColon(b: Block)
    requires ':' !in b.name
    ensures IndexOf(HeaderText(b), ':') == |b.name|
  {
    var line := HeaderText(b);
    var n := |b.name|;
    assert line[n] == ':';
    assert line[..n] == b.name;
  }

  /** The text after the colon reads back as the dependency list. */
  lemma DepsReadBack(deps: seq<string>)
    requires forall k :: 0 <= k < |deps| ==> IsWord(deps[k])
    ensures HeaderDeps(DepsText(deps)) == deps
  {
    if deps != [] {
      var j := Join(deps, ' ');
      JoinWordsTrimmed(deps);
      TrimSpacePadded(" ", j, "");
      assert " " + j + "" == DepsText(deps);
      assert forall k :: 0 <= k < |deps| ==> ' ' !in deps[k];
      SplitJoin(deps, ' ');
    }
  }

  lemma WordTrimmed(w: string)
    requires IsWord(w)
    ensures TrimSpace(w) == w
  {
    assert IsTrimmed(w) by {
      assert !IsSpace(w[0]) && !IsSpace(w[|w| - 1]);
    }
    TrimSpacePadded("", w, "");
    assert "" + w + "" == w;
  }

  /** A trimmed line with a colon that is not a comment is a header. */
  lemma ClassifyTrimmedHeader(line: string)
    requires TrimSpace(line) == line && line != [] && line[0] != '#' && ':' in line
    ensures ClassifyLine(line) == Header(TrimSpace(line[..IndexOf(line, ':')]), line[IndexOf(line, ':') + 1..])
  {
    assert !HasPrefix(line, "#") by { assert line[..1][0] == line[0]; }
    assert line[0] != ' ' by { assert line[0] != '#'; }
  }

  /** The shape of `a:b` when `a` is a trimmed text without a colon. */
  lemma ColonLineShape(a: string, b: string)
    requires a != [] && IsTrimmed(a) && ':' !in a
    requires b == [] || !IsSpace(b[|b| - 1])
    ensures var line := a + ":" + b;
      && TrimSpace(line) == line && line[0] == a[0] && ':' in line
      && IndexOf(line, ':') == |a| && line[..|a|] == a && line[|a| + 1..] == b
  {
    var line := a + ":" + b;
    var n := |a|;
    assert line[0] == a[0] && line[n] == ':' && line[..n] == a && line[n + 1..] == b;
    assert IsTrimmed(line) by {
      if b == [] {
        assert line[|line| - 1] == ':';
      } else {
        assert line[|line| - 1] == b[|b| - 1];
      }
    }
    TrimSpacePadded("", line, "");
    assert "" + line + "" == line;
    IndexAfter(a, ':', b);
  }

  /** A trimmed `a:b` is a header named `a`. */
  lemma ColonLineHeader(a: string, b: string)
    requires a != [] && IsTrimmed(a) && a[0] != '#' && ':' !in a
    requires b == [] || !IsSpace(b[|b| - 1])
    ensures ClassifyLine(a + ":" + b) == Header(a, b)
  {
    ColonLineShape(a, b);
    ClassifyTrimmedHeader(a + ":" + b);
    TrimSpacePadded("", a, "");
    assert "" + a + "" == a;
  }

  /** Lines that trim to the same text are read the same way. */
  lemma ClassifyByTrim(x: string, y: string)
    requires TrimSpace(x) == TrimSpace(y)
    ensures ClassifyLine(x) == ClassifyLine(y)
  {
  }

  /** White space in front of a trimmed line does not change how it is read. */
  lemma ClassifyIndentedLine(indent: string, line: string)
    requires AllSpace(indent) && IsTrimmed(line)
    ensures ClassifyLine(indent + line) == ClassifyLine(line)
  {
    var padded := indent + line;
    assert padded == indent + line + "";
    TrimSpacePadded(indent, line, "");
    assert line == "" + line + "";
    TrimSpacePadded("", line, "");
    ClassifyByTrim(padded, line);
  }

  /** A header line reads back as its name and the text after the colon. */
  lemma ClassifyHeaderText(b: Block)
    requires WellFormed(b)
    ensures ClassifyLine(HeaderText(b)) == Header(b.name, DepsText(b.deps))
  {
    assert IsTrimmed(b.name) by {
      assert !IsSpace(b.name[0]) && !IsSpace(b.name[|b.name| - 1]);
    }
    var d := DepsText(b.deps);
    assert d == [] || !IsSpace(d[|d| - 1]) by {
      if b.deps != [] {
        JoinWordsTrimmed(b.deps);
        var j := Join(b.deps, ' ');
        assert d[|d| - 1] == j[|j| - 1];
      }
    }
    ColonLineHeader(b.name, d);
  }

  /** An indented command with a colon in it is read as a header: the text
      before the colon becomes a target name, the text after it the
      dependency text. */
  lemma ColonSplitsCommand(indent: string, a: string, b: string)
    requires AllSpace(indent)
    requires a != [] && IsTrimmed(a) && a[0] != '#' && ':' !in a
    requires b == [] || !IsSpace(b[|b| - 1])
    ensures ClassifyLine(indent + (a + ":" + b)) == Header(a, b)
  {
    ColonLineShape(a, b);
    ColonLineHeader(a, b);
    ClassifyIndentedLine(indent, a + ":" + b);
  }

  /** A command text is read as itself. */
  lemma ClassifyBareCommand(c: string)
    requires IsCommandText(c)
    ensures ClassifyLine(c) == Command(c)
  {
    TrimSpacePadded("", c, "");
    assert "" + c + "" == c;
    assert !HasPrefix(c, "#") by { assert c[..1][0] == c[0]; }
  }

  /** An indented command reads back as the command itself. */
  lemma ClassifyCommandText(c: string)
    requires IsCommandText(c)
    ensures ClassifyLine("\t" + c) == Command(c)
  {
    TrimSpacePadded("\t", c, "");
    assert "\t" + c + "" == "\t" + c;
  }

  lemma LexAppend(a: seq<string>, b: seq<string>)
    ensures Lex(a + b) == Lex(a) + Lex(b)
  {
  }

  lemma LexBlock(b: Block)
    requires WellFormed(b)
    ensures Lex([HeaderText(b)] + Indent(b.cmds)) == BlockLines(b)
  {
    ClassifyHeaderText(b);
    forall k | 0 <= k < |b.cmds| ensures ClassifyLine(Indent(b.cmds)[k]) == Command(b.cmds[k]) {
      ClassifyCommandText(b.cmds[k]);
    }
    LexAppend([HeaderText(b)], Indent(b.cmds));
  }

  lemma {:induction false} LexRender(bs: seq<Block>)
    requires forall k :: 0 <= k < |bs| ==> WellFormed(bs[k])
    ensures Lex(Render(bs)) == AllBlockLines(bs)
    decreases |bs|
  {
    if bs != [] {
      LexBlock(bs[0]);
      LexAppend([HeaderText(bs[0])] + Indent(bs[0].cmds), Render(bs[1..]));
      LexRender(bs[1..]);
    }
  }

  /** Parsing one block's lines: the header starts a new vertex and its
      commands fill it. */
  lemma RunBlock(st: ParseState, b: Block)
    requires b.name != ""
    requires b.deps == HeaderDeps(DepsText(b.deps))
    ensures Run(st, BlockLines(b)).Running?
    ensures Run(st, BlockLines(b)).state.graph == Store(st.graph, b)
  {
    var ls := BlockLines(b);
    var started := ParseState(b.name, Vertex(b.deps, []), st.graph);
    assert Step(st, ls[0]) == Running(started);
    var cmdLines := ls[1..];
    assert NoHeader(cmdLines);
    assert cmdLines == CommandLines(b.cmds);
    CommandTextsOfCommandLines(b.cmds);
    RunBody(started, cmdLines);
    assert [] + b.cmds == b.cmds;
  }

  lemma {:induction false} CommandTextsOfCommandLines(cmds: seq<string>)
    ensures CommandTexts(CommandLines(cmds)) == cmds
    decreases |cmds|
  {
    if cmds != [] {
      CommandTextsOfCommandLines(cmds[1..]);
      assert CommandLines(cmds)[1..] == CommandLines(cmds[1..]);
      assert [cmds[0]] + cmds[1..] == cmds;
    }
  }

  lemma {:induction false} RunBlocks(st: ParseState, bs: seq<Block>)
    requires forall k :: 0 <= k < |bs| ==> WellFormed(bs[k])
    ensures Run(st, AllBlockLines(bs)).Running?
    ensures Run(st, AllBlockLines(bs)).state.graph == Expected(st.graph, bs)
    decreases |bs|
  {
    if bs != [] {
      var b := bs[0];
      DepsReadBack(b.deps);
      RunBlock(st, b);
      RunAppend(st, BlockLines(b), AllBlockLines(bs[1..]));
      RunBlocks(Run(st, BlockLines(b)).state, bs[1..]);
    }
  }

  /** Parse round trip: a file written out from well-formed targets parses
      without error into the map that stores, in file order, every target that
      has commands with exactly its declared dependencies and commands. */
  lemma ParseRoundTrip(g: Graph, bs: seq<Block>)
    requires forall k :: 0 <= k < |bs| ==> WellFormed(bs[k])
    ensures Parse(g, Render(bs)) == ParseResult(Expected(g, bs), None)
  {
    LexRender(bs);
    RunBlocks(Start(g), bs);
  }

  lemma {:induction false} ExpectedAppend(g: Graph, bs: seq<Block>, b: Block)
    ensures Expected(g, bs + [b]) == Store(Expected(g, bs), b)
    decreases |bs|
  {
    if bs == [] {
      assert bs + [b] == [b];
    } else {
      assert (bs + [b])[1..] == bs[1..] + [b];
      ExpectedAppend(Store(g, bs[0]), bs[1..], b);
    }
  }

  /** With distinct names, each target with commands is stored with exactly
      its declared dependencies and commands. */
  lemma {:induction false} ExpectedDistinct(g: Graph, bs: seq<Block>)
    requires forall i, j :: 0 <= i < j < |bs| ==> bs[i].name != bs[j].name
    ensures forall k :: 0 <= k < |bs| && bs[k].cmds != [] ==>
      bs[k].name in Expected(g, bs) && Expected(g, bs)[bs[k].name] == Vertex(bs[k].deps, bs[k].cmds)
    decreases |bs|
  {
    if bs != [] {
      var last := bs[|bs| - 1];
      var init := bs[..|bs| - 1];
      assert init + [last] == bs;
      ExpectedAppend(g, init, last);
      ExpectedDistinct(g, init);
    }
  }

  /** The keys afterwards are the keys before plus the names of the targets
      that have commands. */
  lemma {:induction false} ExpectedKeys(g: Graph, bs: seq<Block>)
    ensures Expected(g, bs).Keys == g.Keys + set k | 0 <= k < |bs| && bs[k].cmds != [] :: bs[k].name
    decreases |bs|
  {
    if bs != [] {
      var last := bs[|bs| - 1];
      var init := bs[..|bs| - 1];
      assert init + [last] == bs;
      ExpectedAppend(g, init, last);
      ExpectedKeys(g, init);
      var named := set k | 0 <= k < |bs| && bs[k].cmds != [] :: bs[k].name;
      var namedInit := set k | 0 <= k < |init| && init[k].cmds != [] :: init[k].name;
      assert named == namedInit + (if last.cmds != [] then {last.name} else {}) by {
        forall n | n in named ensures n in namedInit || (last.cmds != [] && n == last.name) {
          var k :| 0 <= k < |bs| && bs[k].cmds != [] && bs[k].name == n;
          if k < |init| { assert init[k] == bs[k]; }
        }
        forall n | n in namedInit ensures n in named {
          var k :| 0 <= k < |init| && init[k].cmds != [] && init[k].name == n;
          assert bs[k] == init[k];
        }
        if last.cmds != [] {
          assert bs[|bs| - 1] == last;
        }
      }
    }
  }
}
