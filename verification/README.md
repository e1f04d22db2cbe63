# Go-make graph engine in Dafny

A model of the dependency-graph engine of Go-make, a small `make` clone, and of
the pure first half of its command runner:

- `internal/graph.go` covers:
  - the `Vertex` and `Graph` types;
  - `ParseMakeFile`, modelled as a left fold over the lines of the file;
  - the two-step `CheckCyclicDependency`;
  - `CheckTarget`;
  - the one-level `OrderOfExecution`: the order in which its loops reach the
    commands, and the run itself, which ends at the first command that makes
    `ExecCommand` panic.
- `internal/executeCmd.go`, lines 14-31: deciding whether a command is printed,
  removing one `@`, deleting the single quotes and cutting the text into a
  program name and its arguments.

The model follows the code as written. The behaviour it pins down:

- Every line is trimmed before it is looked at.
- Any non-comment line that contains a colon is a header, including a command
  such as `echo a:b`.
- A target reaches the map only once it has a command.
- A target declared twice replaces its earlier entry.
- Commands written before any header are stored under the name `""`.
- The only parse error is a header whose name is empty. Entries stored before
  that header stay in the map.
- The cycle check looks two steps ahead only.
- The execution order runs only the direct dependencies.

Modules, one per file:

| file | module | contents |
|---|---|---|
| `strings.dfy` | `Strings` | the parts of Go's `strings` package the code uses, for ASCII white space |
| `graph.dfy` | `Graph` | `Vertex`, `Graph`, `NewVertex`, `NewGraph`, `AddCommand`, `AddDependencies`, map lookups with Go's zero value |
| `parse.dfy` | `Parser` | line classification, the loop step, the fold, the `ParseMakeFile` method and its lemmas |
| `roundtrip.dfy` | `RoundTrip` | a file written out from a list of targets parses back into exactly those targets |
| `cycles.dfy` | `Cycles` | the check as written, and a corrected detector that finds every cycle |
| `order.dfy` | `Execution` | `CheckTarget`, the order in which the loops of `OrderOfExecution` reach the commands, and the walk over every dependency |
| `run.dfy` | `Runner` | the run of `OrderOfExecution`: the commands handed to `ExecCommand`, up to the first one that panics |
| `commands.dfy` | `Commands` | the pure prefix of `ExecCommand` |
| `fixtures.dfy` | `Fixtures` | the make files of the tests, parsed line by line |
| `scenarios.dfy` | `Scenarios` | the cycle check, the order and the command of the tests, applied to those results |

## Model

| member | source | states |
|---|---|---|
| Graph.NewVertex | internal/graph.go:33-38 | A new vertex has no dependencies and no commands. |
| Graph.NewGraph | internal/graph.go:41-47 | A new graph has no targets. |
| Graph.AddCommand | internal/graph.go:50-53 | The command goes at the end of the list. Earlier commands and all dependencies are unchanged. |
| Graph.AddDependencies | internal/graph.go:56-62 | Only appends. Joining the new pieces with single spaces gives the line back. There is one piece more than the line has spaces, and no piece holds a space. |
| Strings.TrimSpace | internal/graph.go:87 | The result has no white space at either end. It is empty exactly when the input is all white space. |
| Strings.TrimSpacePadded | internal/graph.go:87 | Trimming any white-space padding of a trimmed text gives that text back. |
| Strings.IndexOf | internal/graph.go:100 | Gives the first position of the character, or -1 exactly when the character is absent. |
| Strings.IndexAfter | internal/graph.go:100 | The first colon is the one right after a prefix that has none. |
| Strings.Split | internal/graph.go:58 | There is one piece more than separators, no piece holds the separator, and joining the pieces gives the input back. |
| Strings.SplitJoin | internal/graph.go:58 | Splitting undoes joining when no piece holds the separator. |
| Strings.RemoveAll | internal/executeCmd.go:25 | No quote is left, and the text shrinks by exactly the number of quotes. |
| Strings.FieldsEmpty | internal/executeCmd.go:28 | `Fields` finds no word exactly when the text is all white space. |
| Strings.FieldsKeepOrder | internal/executeCmd.go:28 | Gluing the words together gives the non-space characters of the text, in order. |
| Strings.FieldsJoin | internal/executeCmd.go:28 | `Fields` undoes joining words with single spaces. |
| Strings.FieldsSpaced | internal/executeCmd.go:28 | Words separated by non-empty runs of any white space, with any white space at either end, come back from `Fields` as exactly those words. |
| Parser.ClassifyLineKinds | internal/graph.go:87-94 | A trimmed line is skipped exactly when it is empty or starts with `#`. It is a header exactly when it otherwise holds a colon (the `line[0] != ' '` test never fails). Any other line is a command, kept trimmed. |
| Parser.HeaderSplitsAtFirstColon | internal/graph.go:99-103 | A header splits the trimmed line at its first colon. The name is the trimmed text before that colon. |
| Parser.HeaderDeps | internal/graph.go:109-115 | With nothing after the colon the list is empty. Otherwise the list, joined with single spaces, is the trimmed text after the colon. |
| Parser.Step | internal/graph.go:85-122 | One loop turn per kind of line:<br>- a skipped line changes nothing;<br>- a header with an empty name stops with the map as it is;<br>- any other header makes its name current, with a fresh vertex of its dependencies;<br>- a command is appended to the current vertex, which is stored under the current name. |
| Parser.RunBody | internal/graph.go:119-122 | Lines without a header append their commands, in order, to the current vertex. It is stored once it has one, under `""` before any header. |
| Parser.ParseFailsIff | internal/graph.go:105-107 | The parse returns `ErrTargetNotFound` exactly when some line is a header with an empty name. |
| Parser.StopsAtFirstNamelessHeader | internal/graph.go:105-107 | The parse stops at the first nameless header. The map keeps everything stored by the lines above it. |
| Parser.ParsedVerticesHaveCommands | internal/graph.go:119-122 | Every vertex in the map has at least one command, whether the parse fails or not. |
| Parser.ParseKeepsKeys | internal/graph.go:97-122 | No key is ever removed. A redefinition replaces, and an error keeps what is there. |
| Parser.HeadersAloneStoreNothing | internal/graph.go:94-117 | Without a command line the map is unchanged. |
| Parser.StoredKeys | internal/graph.go:67-122 | After a successful parse, a name is a key exactly when it was one before or owns some command line. |
| Parser.ParseLine | internal/graph.go:87-122 | The statements of the loop body, one by one, have the effect of `Step`. |
| Parser.ParseMakeFile | internal/graph.go:65-124 | The loop computes the fold. It returns an error exactly for a nameless header, never removes a key, and stores only vertices with commands. |
| RoundTrip.ParseRoundTrip | internal/graph.go:85-124 | Parsing a file written out from well-formed targets gives no error and stores them in order: each target with commands replaces the entry of its name. |
| RoundTrip.ExpectedKeys | internal/graph.go:119-122 | Afterwards the keys are the keys before plus the names of the targets that have commands. |
| RoundTrip.ExpectedDistinct | internal/graph.go:97-122 | With distinct names, each target with commands is stored with exactly its declared dependencies and commands. |
| RoundTrip.ExpectedAppend | internal/graph.go:97-122 | A target declared later replaces, or leaves alone, what the earlier ones stored. |
| RoundTrip.DepsReadBack | internal/graph.go:109-115 | The text after the colon of a written header reads back as the dependency list. |
| RoundTrip.ColonSplitsCommand | internal/graph.go:94-103 | An indented command holding a colon is read as a header, named by the text before the colon. |
| Cycles.CheckCyclicDependency | internal/graph.go:131-155 | Reports a cycle exactly when some target `t` has a dependency `d` whose vertex (empty if absent) lists `t`. The target reported is such a `t`. |
| Cycles.ShortCycleIff | internal/graph.go:133-147 | The check fires exactly when two targets (possibly the same one) depend on each other directly. |
| Cycles.ShortCycleIsCycle | internal/graph.go:131-155 | The check never fires without a real cycle. |
| Cycles.ThreeCycleMissed | internal/graph.go:131-155 | For `a: b`, `b: c`, `c: a` there is a cycle, but the check does not fire. |
| Cycles.AcyclicByRank | internal/graph.go:131-155 | If the targets can be ranked so that every dependency ranks lower, there is no cycle. |
| Cycles.ReachIff | internal/graph.go:131-155 | The closure computed from a target holds exactly the names reachable from it by one or more edges. |
| Cycles.FindsCycleIff | internal/graph.go:131-155 | The corrected detector fires exactly when the graph has a cycle of any length. |
| Cycles.DetectCycle | internal/graph.go:131-155 | The corrected check reports a cycle exactly when one exists. The target it reports reaches itself. |
| Execution.CheckTarget | internal/graph.go:158-167 | Gives no error exactly when the name is a key, and `ErrTargetNotFound` otherwise. |
| Execution.ScheduleMembers | internal/graph.go:170-194 | The loops reach a command exactly when it belongs to the target or to one of its direct dependencies. |
| Execution.DependencyBlock | internal/graph.go:176-185 | The loops reach the commands of the `j`-th dependency as one block, right after those of the dependencies before it. A repeated dependency is reached again. |
| Execution.UnknownDependencySkipped | internal/graph.go:178 | A dependency that is not a target contributes nothing. |
| Execution.ScheduleIsWalkOne | internal/graph.go:170-194 | The order as written is the dependency walk cut off after one level. |
| Execution.GrandDependencySkipped | internal/graph.go:170-194 | For `a -> b -> c`, the loops never reach the commands of `c` for `a`. The walk over every dependency reaches them first. |
| Execution.FullScheduleCovers | internal/graph.go:170-194 | In the corrected order, the commands of every target reachable from `t` run, and run before those of `t`. |
| Execution.WalkOnlyReachable | internal/graph.go:170-194 | The walk runs only commands of `t` and of targets reachable from `t`. |
| Runner.StartsIff | internal/executeCmd.go:25-31 | A command gets past `parts[0]` exactly when preparing it yields a program to call. |
| Runner.HandedOver | internal/graph.go:170-194 | What is handed over is a prefix of the commands. Every command in it but the last gets past `parts[0]`. When the prefix is cut short, its last command does not. |
| Runner.HandedOverAll | internal/graph.go:170-194 | When every command gets past `parts[0]`, every command is handed over. |
| Runner.HandedOverPanics | internal/graph.go:170-194 | The run panics exactly when some command does not get past `parts[0]`. The last command handed over is then one that does not. |
| Runner.HandedOverStop | internal/graph.go:170-194 | A prefix whose commands all get past `parts[0]` except the last is exactly what is handed over. |
| Runner.HandedOverAfter | internal/graph.go:170-194 | Commands that all get past `parts[0]` are handed over whole, and the run goes on into what follows as if it started there. |
| Runner.HandedOverBefore | internal/graph.go:170-194 | Once a block holds a command that panics, nothing after the block is handed over. |
| Runner.ExecAll | internal/graph.go:181-183 | The loop hands over the commands in order until the first that panics. It panics exactly when some command does not get past `parts[0]`, and otherwise hands over all of them. |
| Runner.ExecDependencies | internal/graph.go:176-185 | The outer loop hands over the commands of each dependency in turn, stopping at the first panic. It panics exactly when some dependency command does not get past `parts[0]`. |
| Runner.OrderOfExecution | internal/graph.go:170-194 | The commands of the direct dependencies, in declared order, then the target's own, are handed to `ExecCommand`. The run ends right after the first one that leaves no word, where Go panics, and `panicked` says exactly when that happens. Without such a command every command is handed over. |
| Commands.StripEcho | internal/executeCmd.go:14-18 | The command is printed exactly when it starts with `@`. What is printed is the command with that one `@` removed. |
| Commands.PrepareCommand | internal/executeCmd.go:14-31 | Puts together the echo decision, the quote deletion and the split:<br>- there is no call (the panic) exactly when the quote-free text is all white space;<br>- the program and every argument are non-empty, hold no white space and hold no quote. |
| Commands.CallKeepsCharacters | internal/executeCmd.go:25-31 | The program and arguments hold, in order, exactly the characters of the command after the `@` that are not white space or quotes. |
| Commands.PrepareJoinedWords | internal/executeCmd.go:14-31 | Quote-free words joined with spaces come back as program and arguments, with the text printed when an `@` is in front. |
| Commands.PrepareSpacedWords | internal/executeCmd.go:14-31 | Quote-free words separated by any runs of white space, tabs included, and padded with any white space come back as program and arguments. Nothing is printed. |
| Commands.QuotesDoNotGroup | internal/executeCmd.go:25-31 | Quoted words still become separate arguments. |
| Commands.DoubleAtKeepsOne | internal/executeCmd.go:15-18 | `@@echo hi` prints `@echo hi` and calls the program `@echo`. |
| Commands.QuotesOnlyPanic | internal/executeCmd.go:25-31 | `''` leaves no word: the indexing of `parts[0]` panics. |
| Fixtures.ColonCommandIsHeader | internal/graph.go:94-103 | The command line `\techo a:b` is read as a header named `echo a`. |
| Fixtures.ParseValid | internal/graph_test.go:33-62 | `validMakefile` parses without error into the graph the test expects. |
| Fixtures.ParseNameless | internal/graph_test.go:65-85 | The file with `: build` fails with `ErrTargetNotFound` (the test expects an error), and `build` stays stored. |
| Fixtures.ParseRepeated | internal/graph_test.go:87-109 | The file declaring `publish` twice parses without error. The second `publish` replaces the first. |
| Fixtures.ParseNoCommand | internal/graph_test.go:173-193 | In the file whose first two targets have no commands, only `publish` is stored, and there is no error. |
| Fixtures.ParseCyclic | internal/graph_test.go:220-243 | The file in which `test` and `publish` depend on each other parses without error. |
| Scenarios.ValidAcyclic | internal/graph_test.go:207-218 | `validMakefile` has no cycle, so the check does not fire. |
| Scenarios.CyclicFlagged | internal/graph_test.go:220-243 | On the cyclic file the check fires at `test` (through `publish`) and at `publish`. |
| Scenarios.ScheduleBuild | internal/graph_test.go:245-266 | For `build` only its own two commands run, in file order. |
| Scenarios.SchedulePublish | internal/graph.go:170-194 | For `publish` the command of `test` runs, then its own. Those of `build`, which `test` needs, do not run. |
| Scenarios.FullSchedulePublish | internal/graph.go:170-194 | The corrected order for `publish` runs `build`, then `test`, then `publish`. |
| Scenarios.PreparePublishEcho | internal/executeCmd_test.go:11-15 | `@echo 'executing publish'` prints `echo 'executing publish'` and calls `echo` with the arguments `executing` and `publish`. |

## Left out

- Opening the file and `bufio.Scanner`: the input is the sequence of lines the scanner yields. Its `\r` stripping and token-size limit are not modelled.
- The tests write every make file into the same file and parse it into the same graph. The fixtures parse each file on its own into an empty map.
- The print and the `os.Exit(-1)` in `CheckCyclicDependency` become a boolean result and the name of the target found.
- The order of map iteration is left open. The cycle check takes any unvisited target next, and `CheckTarget` does not depend on the order.
- `exec.LookPath`, `exec.Command`, the wiring of the output streams and `Run` start processes. The model stops at the program name and arguments. So does `OrderOfExecution`, which is modelled as the list of commands it hands to `ExecCommand`. The source ignores the errors `ExecCommand` returns, so a command that fails does not stop the run. A command that leaves no word is different: `parts[0]` panics, nothing recovers, and the commands after it are never handed over.
- Printing the command: the model gives the text that would be printed.
- Commands.PrepareCommand: a command with no word left makes Go panic on `parts[0]`. The model makes that case a result (`call == None`), not a precondition.
- The command-line parsing and the two `main` functions are left out. They are orchestration around the engine.
- `CheckCmds`, `ExecuteInOrder`, `Execute`, `ErrInvalidFormat`, `ErrTargetIsRepeated` and an error-returning `CheckCyclicDependency` are left out. `internal/graph_test.go` calls them, but `internal/graph.go` does not define them.
- The repeated-target test and the nameless-header test expect errors the parser does not produce. The fixtures state what it does produce.
- Unicode white space: `TrimSpace` and `Fields` treat only ASCII white space (space, tab, line feed, vertical tab, form feed, carriage return) as white space.
- Execution.FullSchedule: the corrected order walks dependencies to a depth of the number of targets. That covers every target reachable by a shortest path. On a cyclic graph the walk stops at that depth instead of running forever.

## Findings

| source | as written | input that shows it | evidently intended | confidence | as-written member | corrected member |
|---|---|---|---|---|---|---|
| internal/graph.go:131-155 | The check follows a dependency and then that dependency's dependencies, so it sees only cycles of one or two edges. | `a: b`, `b: c`, `c: a`, each with a command. | Every cyclic dependency is detected, as the function's comment says. | not executed | Cycles.ThreeCycleMissed | Cycles.DetectCycle |
| internal/graph.go:170-194 | Only the commands of the direct dependencies run before the target's own. | `validMakefile` with target `publish`: the commands of `build` never run. | Every dependency is built before the target that needs it, as the function's comment says. | not executed | Execution.GrandDependencySkipped | Execution.FullScheduleCovers |
