/**
 The pure part of `ExecCommand` in `internal/executeCmd.go`: the steps that
 run before the program is looked up and started. A command that starts with
 `@` is printed (this tool prints the `@` commands, the reverse of make's
 convention) with exactly one `@` removed; every single quote is then deleted,
 the text is cut into white-space separated words, and the first word names
 the program while the others are its arguments. When no word is left,
 `parts[0]` indexes an empty slice and the Go run time panics; the model
 reports that as a missing call.
 */
module Commands {
  import opened Strings
  import opened Graph

  /** The program to start and its arguments. */
  datatype Call = Call(program: string, args: seq<string>)

  /** What the command line leads to: the text printed first, if any, and the
      call, or `None` for the panic on an empty word list. */
  datatype Prepared = Prepared(echo: Option<string>, call: Option<Call>)

  /** Lines 14-18: a leading `@` asks for the command to be printed and is
      removed once. */
  function StripEcho(command: string): (r: (bool, string))
    ensures r.0 <==> HasPrefix(command, "@")
    ensures r.0 ==> command == "@" + r.1
    ensures !r.0 ==> r.1 == command
  {
    if HasPrefix(command, "@") then (true, command[1..]) else (false, command)
  }

  /** The text that is cut into words: the command without its `@` and
      without any single quote. */
  function Words(command: string): string {
    RemoveAll(StripEcho(command).1, '\'')
  }

  /** `parts[0]` and `parts[1:]`, or nothing when `parts` is empty. */
  function CallOf(parts: seq<string>): Option<Call> {
    if parts == [] then None else Some(Call(parts[0], parts[1..]))
  }

  /** Lines 14-31 of `ExecCommand`. */
  function PrepareCommand(command: string): (r: Prepared)
    ensures r.echo.Some? <==> HasPrefix(command, "@")
    ensures r.echo.Some? ==> command == "@" + r.echo.value
    ensures r.call.None? <==> AllSpace(Words(command))
    ensures r.call.Some? ==>
      && IsWord(r.call.value.program) && '\'' !in r.call.value.program
      && (forall k :: 0 <= k < |r.call.value.args| ==> IsWord(r.call.value.args[k]) && '\'' !in r.call.value.args[k])
  {
    var (echo, text) := StripEcho(command);
    var parts := Fields(Words(command));
    FieldsEmpty(Words(command));
    FieldsAvoid(Words(command), '\'');
    var call := CallOf(parts);
    assert call.Some? ==> forall k :: 0 <= k < |call.value.args| ==> call.value.args[k] == parts[k + 1];
    Prepared(if echo then Some(text) else None, call)
  }

  /** The words of a call, program first. */
  function Argv(c: Call): seq<string> {
    [c.program] + c.args
  }

  /** The program and its arguments hold, in order, exactly the characters of
      the command that are not white space or quotes, without the `@`. */
  lemma CallKeepsCharacters(command: string)
    requires PrepareCommand(command).call.Some?
    ensures Concat(Argv(PrepareCommand(command).call.value)) == Unspaced(Words(command))
  {
    var parts := Fields(Words(command));
    assert Argv(PrepareCommand(command).call.value) == parts;
    FieldsKeepOrder(Words(command));
  }

  /** Words without quotes joined with single spaces come back as the program
      and its arguments; with `@` in front the joined text is also printed. */
  lemma PrepareJoinedWords(words: seq<string>, echo: bool)
    requires words != []
    requires forall k :: 0 <= k < |words| ==> IsWord(words[k]) && '\'' !in words[k]
    requires !echo ==> !HasPrefix(words[0], "@")
    ensures var line := Join(words, ' ');
      PrepareCommand(if echo then "@" + line else line)
        == Prepared(if echo then Some(line) else None, Some(Call(words[0], words[1..])))
  {
    var line := Join(words, ' ');
    var command := if echo then "@" + line else line;
    JoinedWordsEcho(words, echo);
    JoinAvoids(words, ' ', '\'');
    RemoveAllAbsent(line, '\'');
    FieldsJoin(words);
    PrepareFromWords(command, words);
  }

  /** A leading `@` is recognised exactly when it was put in front. */
  lemma JoinedWordsEcho(words: seq<string>, echo: bool)
    requires words != [] && words[0] != []
    requires !echo ==> !HasPrefix(words[0], "@")
    ensures var line := Join(words, ' ');
      StripEcho(if echo then "@" + line else line) == (echo, line)
  {
    var line := Join(words, ' ');
    var command := if echo then "@" + line else line;
    if echo {
      assert command[1..] == line;
    } else {
      if |words| > 1 {
        assert line == words[0] + ([' '] + Join(words[1..], ' '));
      }
      assert line[..1] == words[0][..1];
    }
  }

  /** The result once the words of a command are known. */
  lemma PrepareFromWords(command: string, words: seq<string>)
    requires Fields(Words(command)) == words && words != []
    ensures PrepareCommand(command)
      == Prepared(if StripEcho(command).0 then Some(StripEcho(command).1) else None, Some(Call(words[0], words[1..])))
  {
  }

  /** Deleting the quotes around the end of a command. */
  lemma DropQuotes(program: string, joined: string)
    requires '\'' !in program && '\'' !in joined
    ensures RemoveAll(program + " '" + joined + "'", '\'') == program + " " + joined
  {
    RemoveAllConcat(program + " '" + joined, "'", '\'');
    RemoveAllConcat(program + " '", joined, '\'');
    RemoveAllConcat(program, " '", '\'');
    RemoveAllAbsent(program, '\'');
    RemoveAllAbsent(joined, '\'');
    assert RemoveAll(" '", '\'') == " ";
    assert RemoveAll("'", '\'') == "";
  }

  /** The text cut into words when the last words of a command are quoted. */
  lemma QuotedWords(program: string, joined: string, echo: bool)
    requires program != [] && '\'' !in program && '\'' !in joined
    requires !echo ==> program[0] != '@'
    ensures var line := program + " '" + joined + "'";
      var command := if echo then "@" + line else line;
      StripEcho(command) == (echo, line) && Words(command) == program + " " + joined
  {
    var line := program + " '" + joined + "'";
    var command := if echo then "@" + line else line;
    if echo {
      assert command[1..] == line;
    } else {
      assert line[..1] == program[..1];
    }
    DropQuotes(program, joined);
  }

  /** Single quotes do not group words as a shell would: the quoted words
      still become separate arguments. */
  lemma QuotesDoNotGroup(program: string, args: seq<string>, echo: bool)
    requires IsWord(program) && '\'' !in program
    requires !echo ==> program[0] != '@'
    requires args != []
    requires forall k :: 0 <= k < |args| ==> IsWord(args[k]) && '\'' !in args[k]
    ensures var line := program + " '" + Join(args, ' ') + "'";
      PrepareCommand(if echo then "@" + line else line)
        == Prepared(if echo then Some(line) else None, Some(Call(program, args)))
  {
    var joined := Join(args, ' ');
    var line := program + " '" + joined + "'";
    var command := if echo then "@" + line else line;
    JoinAvoids(args, ' ', '\'');
    QuotedWords(program, joined, echo);
    var words := [program] + args;
    assert words[0] == program && words[1..] == args;
    assert Join(words, ' ') == program + " " + joined;
    forall k | 0 <= k < |words| ensures IsWord(words[k]) {
      if k > 0 {
        assert words[k] == args[k - 1];
      }
    }
    FieldsJoin(words);
    PrepareFromWords(command, words);
  }

  /** A character in neither the words nor the white space between them is
      not in the text. */
  lemma {:induction false} InterleaveAvoids(words: seq<string>, seps: seq<string>, c: char)
    requires |seps| == |words| + 1
    requires forall k :: 0 <= k < |words| ==> c !in words[k]
    requires forall k :: 0 <= k < |seps| ==> c !in seps[k]
    ensures c !in Interleave(words, seps)
    decreases |words|
  {
    if words != [] {
      forall k | 0 <= k < |words| - 1 ensures c !in words[1..][k] {
        assert words[1..][k] == words[k + 1];
      }
      forall k | 0 <= k < |seps| - 1 ensures c !in seps[1..][k] {
        assert seps[1..][k] == seps[k + 1];
      }
      InterleaveAvoids(words[1..], seps[1..], c);
    }
  }

  /** The interleaved text starts with `@` only if its first word does and
      no white space comes before it. */
  lemma SpacedStart(words: seq<string>, seps: seq<string>)
    requires words != [] && |seps| == |words| + 1 && words[0] != []
    requires AllSpace(seps[0])
    requires seps[0] != [] || !HasPrefix(words[0], "@")
    ensures !HasPrefix(Interleave(words, seps), "@")
  {
    var command := Interleave(words, seps);
    assert command == seps[0] + words[0] + Interleave(words[1..], seps[1..]);
    if seps[0] != [] {
      assert command[0] == seps[0][0];
    } else {
      assert command[..1] == words[0][..1];
    }
  }

  /** White space holds no quote. */
  lemma SpacedNoQuote(words: seq<string>, seps: seq<string>)
    requires |seps| == |words| + 1
    requires forall k :: 0 <= k < |words| ==> '\'' !in words[k]
    requires forall k :: 0 <= k < |seps| ==> AllSpace(seps[k])
    ensures '\'' !in Interleave(words, seps)
  {
    forall k | 0 <= k < |seps| ensures '\'' !in seps[k] {
      assert forall i :: 0 <= i < |seps[k]| ==> IsSpace(seps[k][i]);
    }
    InterleaveAvoids(words, seps, '\'');
  }

  /** Any run of white space, tabs included, separates two arguments, and
      white space at either end is dropped. */
  lemma PrepareSpacedWords(words: seq<string>, seps: seq<string>)
    requires words != [] && |seps| == |words| + 1
    requires forall k :: 0 <= k < |words| ==> IsWord(words[k]) && '\'' !in words[k]
    requires forall k :: 0 <= k < |seps| ==> AllSpace(seps[k])
    requires forall k :: 0 < k < |words| ==> seps[k] != []
    requires seps[0] != [] || !HasPrefix(words[0], "@")
    ensures PrepareCommand(Interleave(words, seps))
      == Prepared(None, Some(Call(words[0], words[1..])))
  {
    var command := Interleave(words, seps);
    SpacedStart(words, seps);
    SpacedNoQuote(words, seps);
    RemoveAllAbsent(command, '\'');
    assert Words(command) == command;
    FieldsSpaced(words, seps);
    PrepareFromWords(command, words);
  }

  /** Only the first `@` is removed: the second one is printed and becomes
      part of the program name. */
  lemma DoubleAtKeepsOne()
    ensures PrepareCommand("@@echo hi") == Prepared(Some("@echo hi"), Some(Call("@echo", ["hi"])))
  {
    var words := ["@echo", "hi"];
    assert IsWord(words[0]) && '\'' !in words[0];
    assert IsWord(words[1]) && '\'' !in words[1];
    PrepareJoinedWords(words, true);
    assert "@" + Join(words, ' ') == "@@echo hi";
  }

  /** A command that is nothing but quotes leaves no word: the panic. */
  lemma QuotesOnlyPanic()
    ensures PrepareCommand("''") == Prepared(None, None)
  {
    assert !HasPrefix("''", "@") by { assert "''"[..1] == "'"; }
    assert RemoveAll("''", '\'') == "";
    assert Fields("") == [];
  }
}
