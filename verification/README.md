# A model of `myshell.c`'s line interpreter

`myshell.c` is a small Unix shell. For each input line, `process_input`
decides how the line runs: as a pipeline, as a sequential chain, as a
parallel chain, or as a single command. `execute_pipeline` builds the
pipes and the stage processes. `execute_command` runs one command: it
handles the built-ins `exit` and `cd`, and otherwise forks a child that
applies a `>` redirection and executes the program. `parse_command`
splits a command into words. All of the parsing goes through `strtok`.

This project models that core in Dafny and proves properties of the model.

- `text.dfy`, module `Text`: character-run helpers. `SpanIn`/`SpanOut` are
  `strspn`/`strcspn`. `Remove` deletes delimiters, and `Concat` joins strings.
- `nullable.dfy`, module `Nullable`: `Option`, a pointer that may be NULL,
  as `strtok` returns it and as `parse_command` fills its array.
- `split.dfy`, module `Split`: what a complete `strtok` pass computes, as a
  value.
  - `Segments` is the list of tokens.
  - `Truncate` is the C string left in the buffer after the pass.
  - `IsSplit` independently describes a string as a weave of delimiter gaps
    and segments. `Segments` is proved to be its unique solution.
- `strtok.dfy`, module `Strtok`: the `strtok` calls themselves, on a buffer
  of characters in which a C string ends at the first NUL (`View`).
  - `Call` is one call with the saved position.
  - `Pass` is the loop `tok = strtok(buf, d); while (tok) {...; tok = strtok(NULL, d);}`
    that `parse_command` and `process_input` use. It is proved to store exactly
    `Segments` and to leave `Truncate` in the buffer.
- `events.dfy`, module `Events`: the shell's effects as a trace of abstract
  system calls (`Fork`, `Wait`, `Exit`, `Chdir`, `Exec`, `Dup2`, `Close`, ...).
  A child's history is nested inside the `Fork` that creates it.
- `command.dfy`, module `Command`: `parse_command` and `execute_command`.
  It covers the built-ins, the child's scan for the first standalone `>`,
  and the cut of the argument array at that position.
- `pipeline.dfy`, module `Pipeline`: `execute_pipeline`.
  - The validation loop, and the flat `pipefd` array of 2(n - 1) slots.
  - Each stage's `dup2` choices, its close loop, and the parent's
    close and wait loops.
- `shell.dfy`, module `Shell`: `process_input`. Its three passes run on the
  same buffer, in the order the code makes them. The sequential loop stops
  at an `exit`. Parallel children call `exit(0)` after their command.

Behaviour the proofs make explicit:

- **Classification.** The `#` pass works on what the `|` pass left in the
  buffer, and the `&` pass works on what the `#` pass left. So a line is
  classified by the first pass that finds more than one segment, and a
  later pass sees the line less the trailing delimiters an earlier pass
  cut (`Shell.SequentialLaw`): `a#b|` runs `a` and then `b`
  (`Shell.TrailingBarExample`).
  - The command of a single-command line is a prefix of the line followed
    only by `|`, `#` and `&` characters (`Shell.SingleLaw`).
  - When the line holds some other character, the command ends on a
    character that is not an operator, so it is the line with its trailing
    operators cut off (`Shell.SingleLaw`). Leading ones stay: `|ls` runs
    the program named `|ls` (`Shell.LeadingBarExample`).
  - A line made only of operators can keep some of them: `|&` runs `|`
    (`Shell.OperatorsOnlyExample`).
- **Redirection** is part of `execute_command`, not a mode of the line.
  Only a standalone `>` word counts, and only the first one.
  - `ls>out` is a single word, so no redirection happens.
  - The child executes exactly the words before the `>`, and ignores
    everything after the file name.
- **Validation.** `strtok` never yields an empty token, so the validation
  loop of `execute_pipeline` can never fire (`Shell.PipedNeverEmpty`). A
  stage made only of blanks passes it and executes an empty argument
  vector (`Pipeline.BlankStageExample`).
- **Pipeline stages** are only split into words and executed. A `>`, `exit`
  or `cd` inside a stage is passed to `execvp` like any other word
  (`Pipeline.RunStage`).
- **Whitespace.** No command is trimmed. Its words are whatever
  `parse_command` finds.
- **Sequential chains stop at `exit`.** `exit` ends the shell process
  itself, so the commands after it never run and are never parsed
  (`Shell.SequenceStops`).

## Model

| member | source | states |
|---|---|---|
| `Split.Segments` | myshell.c:21-26 | every token of a pass is non-empty and holds no delimiter |
| `Split.SplitExists` | myshell.c:21-26 | the tokens and the delimiter gaps around them weave back into the scanned string |
| `Split.SplitUnique` | myshell.c:21-26 | any weave of delimiter runs and non-delimiter runs of a string is the one the pass finds: tokens are determined by the string |
| `Split.NoSegmentsIff` | myshell.c:23 | the first call returns NULL exactly when the string is only delimiters |
| `Split.SeveralSegmentsIff` | myshell.c:152 | a pass finds more than one token exactly when some delimiter has a non-delimiter on each side |
| `Split.SegmentsRejoin` | myshell.c:145-149 | concatenating the tokens gives the string with its delimiters deleted |
| `Split.SegmentsAvoid` | myshell.c:145-149 | tokens hold no character the string lacks, so they are C strings without NUL |
| `Split.TruncateSplit` | myshell.c:160 | after a pass the buffer's string is the leading delimiters plus the first token, or untouched when there was none |
| `Split.TruncatePrefix` | myshell.c:160 | the string left is a prefix of the line and keeps the leading delimiters; with no token it is the whole line, otherwise it ends on a non-delimiter |
| `Split.TruncateOne` | myshell.c:160-177 | with exactly one token, only trailing delimiters are lost and a new pass over what is left finds the same token |
| `Split.TruncateRun` | myshell.c:160 | past its leading delimiters, the string left holds no delimiter |
| `Split.TruncateKeeps` | myshell.c:160-177 | with at most one token, a non-delimiter character of the line is kept, and no character between the leading delimiters and the cut is a delimiter |
| `Strtok.Call` | myshell.c:21-25 | one `strtok` call: a token is non-empty, delimiter-free and moves the saved position forward; NULL leaves the buffer unchanged |
| `Strtok.CallStep` | myshell.c:21-25 | NULL exactly when no segment is left; otherwise the next segment, with NUL written over the delimiter after it unless it ends the string |
| `Strtok.PassFirst` | myshell.c:21 | the first call `strtok(buf, d)` starts the pass invariant: tokens found plus remaining segments are all the segments |
| `Strtok.PassNext` | myshell.c:23-25 | each `strtok(NULL, d)` keeps that invariant and the buffer beyond the saved position |
| `Strtok.Pass` | myshell.c:21-27 | a whole pass stores exactly the segments of the string, in order, and leaves the truncated string in the buffer |
| `Command.CArgs` | myshell.c:24-27 | the argument array holds each word in order, then NULL |
| `Command.ArgvOfCArgs` | myshell.c:74 | `execvp` reads back exactly the stored words |
| `Command.ArgvOfCut` | myshell.c:70 | after `args[i] = NULL` `execvp` sees exactly the first `i` words |
| `Command.ParseCommand` | myshell.c:20-28 | the array's entries are the command's blank-separated words, each non-empty and blank-free, NULL-terminated within `MAX_ARGS` entries |
| `Command.FirstRedirect` | myshell.c:57-58 | the position of the first `>` word: no `>` before it |
| `Command.ScanRedirect` | myshell.c:57-73 | the child's loop stops at the first `>`, fails without a following word, and otherwise redirects to that word and cuts the array there |
| `Command.ExecuteCommand` | myshell.c:31-83 | `execute_command` produces the trace `Execute` gives for the command's string |
| `Command.DispatchLaw` | myshell.c:35-54 | no words: nothing; `exit`: only `exit(0)`; `cd` alone: an error report; `cd p`: `chdir(p)`; every other command forks and then waits |
| `Command.HaltsIffExit` | myshell.c:38-40 | the shell exits exactly when the first word is `exit` |
| `Command.ForksIff` | myshell.c:54-79 | a command forks at most once, and does so exactly when it is not a built-in; the trace is then the fork followed by the wait |
| `Command.BlankCommand` | myshell.c:35 | a command of only spaces and tabs does nothing |
| `Command.RedirectLaw` | myshell.c:57-74 | no `>`: all words executed; a final `>`: report and exit 1; otherwise stdout to the word after the first `>` and exactly the words before it executed |
| `Command.OneWord` | myshell.c:21-26 | a non-empty blank-free string is a single word |
| `Command.OneWordCommand` | myshell.c:54-77 | a one-word command other than `exit`, `cd`, `>` forks a child executing that word |
| `Command.GluedRedirectIsAWord` | myshell.c:58 | `ls>out` is not a redirection: the child executes the program `ls>out` |
| `Command.RedirectExampleWords` | myshell.c:21-26 | `ls > out.txt` has the words `ls`, `>`, `out.txt` |
| `Command.RedirectExample` | myshell.c:57-74 | `ls > out.txt` redirects the child's stdout to `out.txt` and executes `ls` |
| `Pipeline.CloseSlots` | myshell.c:117-119 | the close loop closes slots 0 to 2(n - 1) - 1 in order |
| `Pipeline.RunStage` | myshell.c:107-126 | a stage's child: stdin from the previous pipe if any, stdout to the next pipe if any, every slot closed, then `execvp` |
| `Pipeline.RunPipeline` | myshell.c:86-137 | `execute_pipeline` loop by loop: report and stop on an empty command, else pipes, forks, closes and waits as `ExecutePipeline` states |
| `Pipeline.StageDup2` | myshell.c:109-115 | the `dup2` calls of a stage do not depend on its command |
| `Pipeline.Wiring` | myshell.c:109-115 | stage i redirects stdin from slot 2(i - 1) exactly when i > 0, and stdout to slot 2i + 1 exactly when i < n - 1 |
| `Pipeline.SlotsInRange` | myshell.c:94-119 | every slot a stage redirects or closes lies inside `pipefd` |
| `Pipeline.ExactlyOnce` | myshell.c:109-115 | each slot of `pipefd` is redirected by exactly one stage |
| `Pipeline.PipeEnds` | myshell.c:97-115 | pipe p carries stage p's stdout (write end 2p + 1) into stage p + 1's stdin (read end 2p) |
| `Pipeline.ClosesBeforeExec` | myshell.c:116-126 | a stage closes every slot before `execvp`, and `execvp` is its last event |
| `Pipeline.ParentCloses` | myshell.c:129-132 | the parent closes slot s exactly when s is a slot of `pipefd` |
| `Pipeline.LifecycleCounts` | myshell.c:105-136 | the parent forks n children, closes 2(n - 1) slots, each slot of `pipefd` among them and no other, and waits n times |
| `Pipeline.LifecycleOrder` | myshell.c:97-136 | all pipes before the first fork, no fork after a close, and the waits last |
| `Pipeline.ValidatedPipeline` | myshell.c:88-93 | once every command passed validation, no error is reported |
| `Pipeline.BlankStageExample` | myshell.c:89 | a blank stage passes validation and its child executes an empty argument vector |
| `Shell.Classify` | myshell.c:145-199 | pipeline, sequential and parallel modes always carry more than one command |
| `Shell.RunCommand` | myshell.c:169 | `execute_command` on a command string gives its `Execute` trace |
| `Shell.RunSequential` | myshell.c:167-172 | the sequential loop runs the commands in order, ending when one exits; only the commands up to the first `exit` need to fit `MAX_ARGS` |
| `Shell.RunParallel` | myshell.c:184-196 | the parallel loops fork a child per command that then calls `exit(0)`, then wait once per child |
| `Shell.ProcessInput` | myshell.c:140-200 | `process_input`'s three passes on one buffer produce the trace `Respond` gives for the line, for every line whose arrays and parsed commands fit `MAX_ARGS` |
| `Shell.ProcessAfterPipes` | myshell.c:157-172 | once the bar pass found at most one segment, the `#` pass over what it left and the sequential loop give the line's `Respond` trace |
| `Shell.ProcessAfterSeqs` | myshell.c:174-199 | once the `#` pass found at most one segment too, the `&` pass, the parallel loops or the single command give the line's `Respond` trace |
| `Shell.PipedLaw` | myshell.c:145-155 | a line is a pipeline exactly when some bar character lies between two other characters, whatever else it holds; its stages rejoin to the line without its bars |
| `Shell.SequentialLaw` | myshell.c:145-172 | a line is sequential exactly when no bar lies between two other characters and, in the line less its trailing bars, some `#` does; the commands rejoin to that string without `#` |
| `Shell.SequentialPlainLaw` | myshell.c:160-172 | without a bar, a line is sequential exactly when some `#` lies between two other characters; the commands rejoin to the line without `#` |
| `Shell.ParallelLaw` | myshell.c:145-196 | a line is parallel exactly when the bar pass and the `#` pass find no inner delimiter and, in what the `#` pass left, some `&` lies between two other characters; the commands rejoin to that string without `&` |
| `Shell.ParallelPlainLaw` | myshell.c:177-196 | without a bar or `#`, a line is parallel exactly when some `&` lies between two other characters; the commands rejoin to the line without `&` |
| `Shell.PlainLine` | myshell.c:199 | a line without bar, `#` or `&` runs as one command, unchanged |
| `Shell.SingleLaw` | myshell.c:145-199 | a single command is a prefix of the line followed only by operator characters; when the line holds any other character, the command is non-empty and ends on a non-operator, so exactly the trailing operators are cut |
| `Shell.SingleKeeps` | myshell.c:145-199 | a non-operator character of a single-command line survives the three passes, and the command ends on a non-operator |
| `Shell.PipedNeverEmpty` | myshell.c:88-93 | a pipeline coming from a line never has an empty command, so the null-command report never happens |
| `Shell.SequenceStops` | myshell.c:167-170 | sequential execution is the commands' traces in order up to and including the first `exit`, nothing after |
| `Shell.SequenceHalts` | myshell.c:167-170 | sequential execution ends the shell exactly when some command is `exit` |
| `Shell.SequenceWaits` | myshell.c:167-170 | in sequential execution every fork is immediately followed by its wait: no two children overlap |
| `Shell.ChildLaw` | myshell.c:186-190 | a parallel child ends with `exit(0)` and exits nowhere before, after running the whole command unless it was `exit` |
| `Shell.ParallelRun` | myshell.c:184-195 | parallel execution forks n children, waits n times after all forks, and the shell neither exits nor changes directory |
| `Shell.TwoSegments` | myshell.c:145-149 | two non-empty delimiter-free strings joined by one delimiter are exactly the two tokens of a pass |
| `Shell.LeadingDelimiter` | myshell.c:145-149 | one delimiter before a non-empty delimiter-free string gives exactly that string as the one token, and the pass leaves the buffer whole |
| `Shell.PipelineExample` | myshell.c:145-153 | `ls`, a bar, `wc` is a pipeline of `ls` and `wc` |
| `Shell.SequenceExample` | myshell.c:160-170 | `exit#ls` is sequential, and the shell exits without running `ls` |
| `Shell.TrailingBarExample` | myshell.c:145-172 | in `a#b` followed by a bar, the bar pass cuts the bar, so the commands are `a` and `b` |
| `Shell.BlankStageLine` | myshell.c:86-126 | `ls`, bar, blank, bar, `wc` is a three-stage pipeline whose middle child executes no words |
| `Shell.LeadingBarExample` | myshell.c:145-199 | a bar followed by `ls` is a single command: the child executes a program whose name starts with the bar |
| `Shell.OperatorsOnlyExample` | myshell.c:145-199 | a bar followed by `&` is a single command: the `&` pass cuts it to the bar, and the child executes the program named by the bar |

## Left out

- The main loop, with its prompt, `getcwd`, `fgets` and newline stripping, is not part of this model. Neither is the `SIGINT`/`SIGTSTP` handler, which only prints a message. `process_input` receives the line's buffer directly.
- Failures of `fork`, `pipe`, `open`, `chdir` and `execvp` and their `perror` messages are not modelled, because they depend on the operating system. Every such call is an event that is assumed to succeed. So the shell's own `exit(1)` in a child whose `execvp` failed (myshell.c:74-76 and 123-125) is left out with the other failure paths, and so is the `perror("cd")` after a failed `chdir`.
- What an executed program does, how children are scheduled, and wait statuses are left out. A trace records only the calls the shell itself makes.
- `Exec([])`, that is `execvp(NULL, args)`, is recorded as an event but not given a meaning. It comes from a pipeline stage without words, and from a command whose first word is `>`: such a command redirects and then executes no words.
- `MAX_ARGS` is not checked by the source. Overflowing an array is undefined behaviour, so the bound appears as a precondition on the methods (`Pass`, `ParseCommand`, `ExecuteCommand`, `RunCommand`, `RunSequential`, `RunParallel`, `ProcessInput`). The sequential loop only needs it for the commands up to the first `exit`, because the later ones are never parsed. The pure functions are total.
- `Pipeline.RunPipeline`: it does not require that each stage's words fit `MAX_ARGS`, because the stage's argument array is not modelled separately from its word list.
- The `commands[i] == NULL` comparison cannot be expressed, because a command is always a string. The strlen check is modelled exactly.
- The sequential and parallel loops call `execute_command` on each token as a separate string. In the source the token is a pointer into the shared buffer. The `strtok` inside `parse_command` only writes within that token's own C string, so later tokens are not affected. Those writes are not modelled.
- `Strtok` models glibc's `strtok` as one pass at a time. Its hidden saved pointer is an explicit position. The `strtok` calls of `parse_command` never interleave with a pass of `process_input`: each pass collects all its tokens before any command runs, and `parse_command` starts a fresh pass of its own.
