# Proofs about a C shell

This project models the parts of the shell that hold real algorithms or protocols and proves properties of
them. Where the C code changes state step by step, the model is a class or a method with loops, proved equal
to a specification function; the properties the code is for are then proved about that function, for all
inputs, all runs and all interleavings.

| part | files | main results |
|---|---|---|
| Script evaluator | `ShellSyntax`, `ShellFlags`, `ShellSemantics`, `ShellTheorems`, `ShellLaws` | the two global flags implement a structured break/continue semantics on every clean program, and where they do not |
| `$((...))` | `Arith`, `ArithText`, `ArithTraps`, `ArithBound`, `ArithExpansion`, `ArithSafety` | the text of an expression evaluates to its value exactly if no division in it traps; 18 digits cannot overflow; the expansion buffer suffices on every line; which lines overrun a name's array or trap |
| Job table | `JobTable`, `JobRuns`, `JobLives`, `JobJoins`, `JobWaits` | ids stay distinct and name one job for ever in every interleaving; when a job ends and leaves; which threads are joined, none twice; when a wait answers with the right code |
| Pipelines | `Pipeline`, `PipelineRuns` | who holds which pipe end, end-of-file, no deadlock, termination, no descriptor leak |
| Line editor | `History`, `LineEditor`, `EditorSessions` | the buffer refines a zipper; what every key does to the line that comes back, from its bytes; Up and Down restore the line; the ring is the last hundred changes |
| diff | `DiffLines`, `DiffScript`, `DiffLcs`, `DiffUnified`, `DiffContext`, `DiffFormat`, `DiffRun` | the script is a shortest one; headers are exact; the unified diff patches the first file into the second and shows three lines of context, no more and no less; which headers the format reads otherwise |
| cJSON | `JsonBytes`, `JsonString`, `JsonQuote`, `JsonPieces`, `JsonTree`, `JsonTexts`, `JsonAccepted`, `JsonRoundTrip`, `JsonBuffers`, `JsonPrinter`, `JsonList` | what the parser accepts, exactly, and to which tree; parsing undoes printing; string buffers are never overrun; child lists stay well formed |
| Digests | `DigestPadding`, `DigestBlocks`, `DigestConstants`, `DigestStream`, `IcmpChecksum` | streaming digests are the padded fold of the standards' block functions; the ICMP checksum is accepted and notices changes |
| xargs and edit | `XargsSplit`, `XargsPool`, `Replace`, `EditLines`, `EditLaws`, `CStrings` | items are the maximal runs; every child is recorded once; the exit status depends only on how the commands end; literal replacement; the exact bytes after every line operation |

`Wrappers` holds the option type, `Texts` what is common to strings and bytes, `Numerals` decimal digits. From this
directory, `dafny verify dfyconfig.toml` verifies all files together.

## What the code does that its users may not expect

These are consequences of the code as it is; each is proved, and where a promise holds only sometimes the exact
condition is proved too.

- A `break` outside a loop sets a flag that nothing clears: every later line of the session is skipped
  (`ShellTheorems.FlaggedSessionIsStuck`). `{ break ; } && x` runs `x` (`ShellTheorems.GroupBreakAndRuns`).
  A loop leaves a flag set exactly if the evaluation of its condition that ended it did
  (`ShellTheorems.LoopLeavesFlagIff`), and an `until` is right exactly if no evaluation of its condition jumps
  (`ShellTheorems.UntilAgreesIff`).
- A name of 64 or more characters in `$((...))` overruns its array (`ArithSafety.LongNameOverruns`), and dividing
  `LONG_MIN` by -1 traps (`ArithSafety.QuotientTraps`). The text of an expression with shorter names is evaluated
  exactly if no division in the expression has these two values (`ArithTraps.TextIsEvaluatedIff`). Lines without long
  names and divisions are safe, as are expressions of at most 18 digits without variables
  (`ArithSafety.HarmlessLineIsSafe`).
- `diff -b` is documented as ignoring changes in the amount of white space; the code ignores all white space.
  The two agree on a pair of lines exactly if the lines differ otherwise or have white space at the same places
  (`DiffLines.DocumentedAgreesIff`).
- The unified diff of an empty file and one that is not begins a range of no lines at 1. Read by the format, that
  stands behind a line 1 that does not exist, and a strict patch refuses it; all other diffs are read as they are
  meant (`DiffFormat.FormatAgreesIff`).
- A background thread is joined exactly if its creator stored the thread id before the job was pruned
  (`JobJoins.ThreadIsJoinedIff`); one that ends early may never be (`JobRuns.EarlyEndIsNeverClaimed`).
- Waiting for a job that somebody else reaps answers with its code exactly if that is 0 or the job still has its
  slot and the code was recorded there (`JobWaits.WaitAnswersRightIff`), else with 0 (`JobWaits.WaitAnswersZero`).
- Appending to a cJSON list an item that still has a `next` breaks the list (`JsonList.AddItemToArray`).
- A `\u` escape with a bad hexadecimal digit is read as NUL; all others are read as RFC 8259 asks
  (`JsonQuote.EscapeIsStrictIff`). The bytes in the place of digits may bring the two passes of the string parser out
  of step, and the string then takes its closing quote along (`JsonPieces.OutOfStep`). White space is every byte up
  to the blank, and of a number only what `strtod` takes counts; beyond these liberties nothing is accepted that
  is not JSON (`JsonAccepted.AcceptedIff`).
- A history line of 1024 bytes or more is stored cut off, and is stored again when it is repeated
  (`History.RepeatIsDroppedIff`). The history is the last hundred distinct lines exactly if each of those is shorter
  (`History.HistoryIsLastDistinctIff`).
- `xargs -d` drops a last item that begins with NUL (`XargsSplit.KeptSplitsIff`).
- `edit insert-line` behind a last line without a newline joins the two lines (`EditLines.InsertThenDeleteIff`);
  a file with a NUL loses bytes when it is read and written back (`EditLines.ReadThenWriteIff`).

## How to read the model

- The effect of a simple command, of word expansion and of an assignment on the shell is a parameter
  (`ShellSyntax.Machine`), so the results hold for all commands. Fuel bounds `while` and `until`;
  `EvaluatorImplementsSemantics` is stated without it.
- `Arith.Context` holds the variables and what the machine does to the result of one operation: `Exact` does
  nothing, `Wrapping` wraps at 64 bits. The methods return no value where the code overruns an array or traps.
- Steps of the job table are the sections that its mutex protects; steps of a pipeline are single system calls.
  A run is any sequence of possible steps. What a waiter or the reaper is told by the system is a parameter of its
  step.
- Bytes of JSON are numbers from 0 to 255, doubles are exact reals, and `strtod` and the conversion of numbers
  that are not ints are parameters (`JsonTree.Libc`); their texts have at most 25 bytes and no NUL; a
  JSON text's numbers are those that `strtod` takes whole, and the round trip needs only that it reads printed ints.
- In `LineEditor`, what tab completion finds is a parameter. In `XargsPool`, which child ends next, how it ends
  and whether a fork succeeds are nondeterministic.

## Model

| member | source | states |
|---|---|---|
| `ShellFlags.FlagJob` | aishell_main.c:3298-3420 | no run of the evaluator ever has both flags set, if they were not both set before |
| `ShellFlags.FlagCond` | aishell_main.c:3277-3295 | the same for conditions |
| `ShellFlags.FlagNeg` | aishell_main.c:3207-3269 | the same for negation, subshells, groups and timed commands |
| `ShellFlags.FlagLoop` | aishell_main.c:3377-3407 | the same for while and until |
| `ShellFlags.Shell.EvalJob` | aishell_main.c:3298-3420 | the recursive evaluator over shared state and flags leaves exactly the state, flags and status that the flag functions describe |
| `ShellFlags.Shell.EvalFor` | aishell_main.c:3352-3375 | the loop over the words, with its inner loop over the body, computes the flag function of a for |
| `ShellFlags.Shell.EvalLoop` | aishell_main.c:3377-3407 | the while and until loops compute their flag function, or run out of fuel when it does |
| `ShellFlags.Shell.EvalOptElse` | aishell_main.c:2968-2984 | the else/elif chain, including that a branch entered with a flag set is skipped job by job |
| `ShellFlags.Shell.EvalNegCmd` | aishell_main.c:3207-3269 | groups share the flags; a subshell loses its state and its flags and returns its status, or 1 if the fork failed or a signal killed it |
| `ShellSemantics.JobAgrees` | aishell_main.c:3298-3420 | for every job without a jump out of an operand of !, a left operand of && or an until condition, flags and structured semantics give the same state, flags and status |
| `ShellSemantics.JobsAgree` | aishell_main.c:2958-2960 | the same for job lists, also inside loop bodies that stop at the first flag |
| `ShellSemantics.LoopAgrees` | aishell_main.c:3377-3407 | the same for while and until, whatever the number of iterations |
| `ShellSemantics.ForAgrees` | aishell_main.c:3352-3375 | the same for for |
| `ShellSemantics.CondAgrees` | aishell_main.c:3277-3295 | the same for && and || |
| `ShellSemantics.NegAgrees` | aishell_main.c:3207-3269 | the same for !, groups, subshells |
| `ShellSemantics.ElseAgrees` | aishell_main.c:2968-2984 | the same for else and elif chains |
| `ShellSemantics.FlaggedJobsSkip` | aishell_main.c:3298-3300 | once a flag is set all following jobs of a list leave the state alone and return 0 |
| `ShellTheorems.EvaluatorImplementsSemantics` | aishell_main.c:3298-3420 | without fuel: on clean programs the evaluator ends in a state exactly if the structured semantics gives the outcome it stands for, and in at most one |
| `ShellTheorems.LoopLeavesFlagIff` | aishell_main.c:3369-3407 | any loop, clean or not, that ends leaves a flag set exactly if the evaluation of its condition that ended it left one; a for never does |
| `ShellTheorems.LoopClearsFlags` | aishell_main.c:3369-3370 | both flags are clear after every clean loop that ends |
| `ShellTheorems.WhileConditionLeak` | aishell_main.c:3380 | a while whose condition negates a jump ends with the flag still set |
| `ShellTheorems.NotAgreesIff` | aishell_main.c:3212-3216 | negation agrees with the structured semantics exactly if its operand does not jump |
| `ShellTheorems.AndAgreesIff` | aishell_main.c:3281-3286 | && agrees exactly if its left operand does not jump or running the right one afterwards has no effect |
| `ShellTheorems.AndPlainAgreesIff` | aishell_main.c:3281-3286 | with a simple command on the right: exactly if the left operand does not jump or that command has no effect and status 0 |
| `ShellTheorems.UntilAgreesIff` | aishell_main.c:3393-3407 | for any until with clean parts, whatever the number of iterations, it agrees exactly if no evaluation of its condition jumps, and where one does it ends with the flag set |
| `ShellTheorems.GroupBreakAndRuns` | aishell_main.c:3241-3248 | a group that breaks returns 0, so the right operand of && runs, for every command there |
| `ShellTheorems.FlaggedSubshell` | aishell_main.c:3218-3239 | a subshell entered with a flag set skips all its jobs and returns 0 |
| `ShellTheorems.GroupBreakAndSubshell` | aishell_main.c:3218-3248 | so behind a group that breaks, && and a subshell nothing in the subshell is run and the flag stays set |
| `ShellTheorems.LineClearsFlagsIff` | aishell_main.c:3424-3432 | a top-level line leaves the flags clear exactly if it does not jump |
| `ShellTheorems.FlaggedSessionIsStuck` | aishell_main.c:4372-4373 | after a line that leaves a flag set, no later line changes anything but the last status |
| `ShellTheorems.SessionAgrees` | aishell_main.c:3424-3432 | a session of lines without a top-level jump is the structured semantics of its lines |
| `ShellTheorems.JobMore` | aishell_main.c:3298-3420 | more fuel never changes a result |
| `ShellLaws.Connectives` | aishell_main.c:3207-3295 | &&, || and ! between commands, in terms of the statuses of the commands alone |
| `ShellLaws.IfRuns` | aishell_main.c:3343-3350 | if runs the first branch exactly if its condition succeeds, else the other |
| `ShellLaws.WhileRuns` | aishell_main.c:3377-3391 | a while takes exactly as many turns as its condition succeeds in a row, and ends in the state and status they leave |
| `ShellLaws.UntilIsWhileNot` | aishell_main.c:3377-3407 | until is while with the condition negated, for all programs, flags and fuel |
| `ShellLaws.ForRuns` | aishell_main.c:3352-3375 | a for runs its body once for each word, in order, with the variable bound to it |
| `ShellLaws.BreakEndsLoop` | aishell_main.c:3360-3369 | a break ends its loop at the first word, and nothing behind it is run |
| `ShellLaws.ContinueSkipsRest` | aishell_main.c:3360-3370 | a continue skips the rest of the body, and the loop goes on with the next word |
| `Arith.AParser.ApFactor` | aishell_main.c:2648-2684 | the cursor-moving method computes the factor function and moves exactly over it, exactly if no name overruns its array and no division traps on the way |
| `Arith.AParser.ReadName` | aishell_main.c:2663-2678 | the name is read into its array of 64 exactly if it has fewer characters |
| `Arith.AParser.ApTerm` | aishell_main.c:2686-2701 | the same for terms |
| `Arith.AParser.ApExpr` | aishell_main.c:2703-2714 | the same for expressions, including that a minus before ) ends one |
| `Arith.Expr` | aishell_main.c:2703-2714 | on every string the cursor never moves back and never passes the end, so the recursion is bounded |
| `Arith.Factor` | aishell_main.c:2648-2684 | the same for factors |
| `Arith.DivisionTruncates` | aishell_main.c:2695-2696 | quotient and remainder are those of C: truncation toward zero, the sign of the dividend, and 0 for a zero divisor |
| `Arith.WrappingIs` | aishell_main.c:2650-2714 | the 64-bit result of an operation is the long that differs from the exact one by a multiple of 2^64 |
| `ArithTraps.TextIsEvaluatedIff` | aishell_main.c:2648-2714 | on every text of an expression, with any blanks and any parentheses that keep its structure, the evaluator returns exactly if no division in the expression has LONG_MIN on its left and -1 on its right; then it has consumed all of it and returns the value under the usual precedence and left associativity: sums, differences and products of the integers, and the exact quotient without its fraction |
| `ArithTraps.TextInsideIff` | aishell_main.c:2703-2714 | inside any longer text that cannot continue the expression, evaluating goes on behind it with that value, under the same condition |
| `ArithTraps.PrintThenEvaluate` | aishell_main.c:2648-2714 | printing an expression with the fewest or with all parentheses and evaluating the text gives its value, under the same condition |
| `ArithTraps.NumberDivisorsAreSafe` | aishell_main.c:2694-2697 | the condition holds if everything divided by is a number of at most 18 digits, whatever the variables hold |
| `ArithText.MinIsText` | aishell_main.c:2686-2714 | the text with the fewest parentheses parses as the expression it was made from |
| `ArithText.FullIsText` | aishell_main.c:2654-2660 | so does the text with all parentheses |
| `ArithBound.ExprTame` | aishell_main.c:2648-2714 | any arithmetic that is exact below 10^n gives the exact value on text with at most n digits and no variables, and the value is below 10 to the digits consumed |
| `ArithBound.ExactValueBound` | aishell_main.c:2648-2714 | the exact value is below 10 to the digits consumed, however many there are |
| `ArithBound.NoOverflow` | aishell_main.c:2681-2711 | with at most 18 digits 64-bit arithmetic gives the exact value |
| `ArithExpansion.ArithEval` | aishell_main.c:2718-2739 | the matcher and the evaluator on the copied text compute the specification on every string for which the evaluation is safe, and on no other |
| `ArithExpansion.MatcherFindsExpression` | aishell_main.c:2718-2739 | in any line, an expression and blanks before )) are found whole; exactly if no division in it traps they are evaluated, to the value, and the end pointer is just past the )) |
| `ArithExpansion.ArithHasVars` | aishell_main.c:2743-2757 | whether a letter stands before the matching )) |
| `ArithExpansion.PreprocessArith` | aishell_main.c:2766-2792 | the line is expanded exactly if no eager evaluation overruns a name or traps, and then the output fits into 4 bytes a character and 64 more, every write in bounds |
| `ArithExpansion.ExpressionIsReplaced` | aishell_main.c:2766-2792 | in any line a $((, an expression without letters and without a trap, and )) become the expression's value, and the line goes on behind them |
| `ArithExpansion.OtherTextIsKept` | aishell_main.c:2784-2790 | text in which no $(( begins is kept |
| `ArithExpansion.VariablesAreKept` | aishell_main.c:2772-2790 | an expression with a letter is kept for later |
| `ArithExpansion.PlainLineNeverGrows` | aishell_main.c:2766-2792 | if what is replaced eagerly has no variables and at most 18 digits the line never grows |
| `ArithExpansion.ShownValueReadsBack` | aishell_main.c:2782 | the number put into the line evaluates to itself again, for every long under 64-bit arithmetic and every integer under exact arithmetic |
| `ArithSafety.HarmlessLineIsSafe` | aishell_main.c:2766-2792 | a line is preprocessed without overrun or trap if each eager expression has short names and no division, or no variables and at most 18 digits |
| `ArithSafety.LineWithoutDivision` | aishell_main.c:2766-2792 | in particular every line without /, % and runs of 64 name characters |
| `ArithSafety.HarmlessIsSafe` | aishell_main.c:2703-2714 | such an expression is safe to evaluate, and without variables its value is exact |
| `ArithSafety.LongNameOverruns` | aishell_main.c:2663-2678 | 64 underscores or more in $((...)) are evaluated eagerly and overrun the array |
| `ArithSafety.QuotientTraps` | aishell_main.c:2694-2697 | the text of a valid expression that divides the least long by -1, or takes the remainder: it traps |
| `JobTable.Jobs.JobsNew` | aishell_main.c:162-207 | the whole new table: the first free slot gets the next id, or nothing changes and -1 is returned |
| `JobTable.Jobs.JobsSetThreadTid` | aishell_main.c:210-220 | the whole new table: only the first slot with the id changes, and only its thread |
| `JobTable.Jobs.JobsMarkDone` | aishell_main.c:224-233 | the whole new table after a child was reaped |
| `JobTable.Jobs.JobsPrintAndPrune` | aishell_main.c:249-307 | the whole new table and the threads claimed for joining, for every outcome of polling the processes |
| `JobTable.Jobs.BgBuiltinCleanup` | aishell_main.c:1107-1120 | the whole new table after a background thread ends |
| `JobTable.Jobs.JobsRollback` | aishell_main.c:1269-1276 | the whole new table after a thread could not be created |
| `JobTable.Jobs.ProcWaitDone` | aishell_main.c:468-476 | the whole new table when the waiter reaped the child itself |
| `JobWaits.WaitBeginIs` | aishell_main.c:424-458 | in any table a wait is refused exactly for an id of no job or of a thread, answered exactly for a done process, and else blocks on the process of that job |
| `JobWaits.WaitAnswersRightIff` | aishell_main.c:457-487 | whatever happens between the two sections of a blocked wait, it answers with the exit code of the child exactly if that is 0 or the job still has its slot and the code was recorded there meanwhile |
| `JobWaits.LaterWaitsAgree` | aishell_main.c:468-476 | once a waiter recorded the code, every later wait gets it at once or finds the job pruned |
| `JobWaits.WaitAnswersZero` | aishell_main.c:477-487 | a run in which a reaped job is pruned and its slot reused: the blocked wait answers 0, whatever the code was |
| `JobRuns.StepKeeps` | aishell_main.c:162-307 | every step keeps the nonzero slot ids distinct and at most the counter, and lets each slot only move its job forward or take one with a newer id |
| `JobRuns.RunKeeps` | aishell_main.c:162-307 | so does every interleaving of steps |
| `JobRuns.RunFromEmpty` | aishell_main.c:120 | the table is well formed in every run from the empty one |
| `JobLives.JobIsAdded` | aishell_main.c:162-207 | a new job takes the first free slot with the next id, running; with no free slot nothing changes |
| `JobLives.JobEndsIff` | aishell_main.c:224-287 | a job becomes done in a step exactly if the step records an end for it |
| `JobLives.JobLeavesIff` | aishell_main.c:249-307 | a job leaves the table in a step exactly if its creation is undone or a prune finds it done |
| `JobLives.StepsKeepTheRest` | aishell_main.c:162-307 | no step changes the process or command of a live job, and only its creator stores its thread |
| `JobRuns.IdNamesOneJob` | aishell_main.c:162-207 | wherever an id is found later it is the same slot, process and command, and a done job is still done |
| `JobRuns.GoneForGood` | aishell_main.c:162-207 | an id that is in no slot never comes back |
| `JobRuns.HandleTouchesOnlyItsJob` | aishell_main.c:210-220 | an update through a held id touches only a slot that still carries it, and nothing after the slot was pruned and reused |
| `JobRuns.ClaimsStayOk` | aishell_main.c:249-307 | claims made so far are of jobs that are live no more, each of its own thread |
| `JobRuns.NoJobIsClaimedTwice` | aishell_main.c:249-307 | over a whole run no job's thread is claimed for joining twice, and a thread id only for two jobs that were given the same one |
| `JobJoins.ThreadIsJoinedIff` | aishell_main.c:249-307 | over every run: the thread of a pruned job is claimed for joining, then and for ever, exactly if its id was stored before that prune |
| `JobRuns.EarlyEndIsNeverClaimed` | aishell_main.c:1266-1285 | a run in which a thread ends and is pruned before its id is stored: it is claimed by nobody |
| `PipelineRuns.StepKeeps` | aishell_main.c:1752-1924 | every system call of the shell or of a child keeps each descriptor table equal to its base, its wired ends and the pipe descriptors not closed yet |
| `PipelineRuns.RunKeeps` | aishell_main.c:1752-1924 | so does every interleaving, with skipped stages, failed pipes and failed forks |
| `PipelineRuns.OnlyOwnersHold` | aishell_main.c:1868-1872 | once the close loops are done, a write end is open only in the stage before the pipe and a read end only in the stage after it |
| `PipelineRuns.StageIsWired` | aishell_main.c:1864-1872 | at the end of its close loop a stage has exactly the descriptors of the shell, with its ends on 0 and 1 |
| `PipelineRuns.ReaderSeesEnd` | aishell_main.c:1918-1924 | a pipe is at its end exactly when its writer has closed it; when the writer is gone or was never forked |
| `PipelineRuns.NoDeadlock` | aishell_main.c:1752-1955 | until the shell returns, some step is possible that waits for nobody: of the shell, of a child wiring itself, or the exit of a program whose input has ended |
| `PipelineRuns.PipelineEnds` | aishell_main.c:1752-1955 | the number of steps from the start is bounded, apart from what programs do to their own descriptors |
| `PipelineRuns.RunsEnd` | aishell_main.c:1752-1955 | the same from any reachable state, by a measure that every step lowers |
| `PipelineRuns.DrivenToTheEnd` | aishell_main.c:1752-1955 | from every reachable state a run of steps that wait for nobody leads to the return |
| `PipelineRuns.Outcome` | aishell_main.c:1926-1954 | when run_pipeline returns, the descriptors of the shell are as before, no stage runs, and the status is the exit code of the last stage, or 128 and the number of its signal, or 0 if it was skipped; or 1 with nothing started |
| `History.Ring.Add` | aishell_main.c:2441-2452 | the ring, read oldest first, is the old one without a repeated or empty line, else with the cut line appended and the oldest dropped beyond 100 |
| `History.Ring.Get` | aishell_main.c:2455-2459 | entry i from the oldest, or the empty string |
| `History.StoreAppends` | aishell_main.c:2448-2451 | writing at the tail and moving it appends to the entries, with the wrap-around |
| `History.HistoryIsRecentChanges` | aishell_main.c:2441-2452 | for every sequence of lines the history is the last hundred lines that differ from what a row holds of the line before, empty ones left out |
| `History.HistoryOfShortLines` | aishell_main.c:2441-2452 | for lines under 1024 bytes: the last hundred without consecutive duplicates |
| `History.HistoryIsLastDistinctIff` | aishell_main.c:2441-2452 | the history is the last hundred lines without consecutive duplicates exactly if each of those fits into a row |
| `History.RepeatIsDroppedIff` | aishell_main.c:2446-2449 | recording a line again changes nothing exactly if it is empty or under 1024 bytes, or the ring is full of its cut-off row |
| `LineEditor.Editor.InsertPiece` | aishell_main.c:3916-3926 | moving the tail and copying refines insertion at the cursor, within the buffer |
| `LineEditor.Editor.Erase` | aishell_main.c:4138-4143 | the moves of Backspace, Delete and Ctrl-U refine removal at a place, and the buffer stays a terminated string |
| `LineEditor.Editor.OlderEntry` | aishell_main.c:4091-4104 | copying the entry and measuring it refines the step up, saving the line once |
| `LineEditor.Editor.NewerEntry` | aishell_main.c:4105-4114 | the same for the step down |
| `LineEditor.Editor.OneKey` | aishell_main.c:4085-4171 | every key refines its effect on the pure line |
| `LineEditor.Editor.ReadLine` | aishell_main.c:4068-4188 | the byte loop returns the line of the pure session: decoded keys, end of input, Ctrl-D on an empty line |
| `EditorSessions.TypedTextIsReturned` | aishell_main.c:4162-4171 | whatever is being edited, printable bytes that fit and Enter return the line with exactly these bytes at the cursor |
| `EditorSessions.MovingKeys` | aishell_main.c:4115-4136 | with the cursor between any two typed texts: after Left, Right and each way to send Home and End a character goes in at the place the key promises |
| `EditorSessions.ErasingKeys` | aishell_main.c:4119-4160 | after Backspace, Delete, Ctrl-D, Ctrl-U and Ctrl-K it goes into exactly what the key leaves |
| `EditorSessions.KeysAtTheEnds` | aishell_main.c:4068-4160 | at the ends of a text these keys do nothing; Ctrl-D on an empty line and the end of the input end the call |
| `EditorSessions.WalkingReturns` | aishell_main.c:4091-4114 | after any text, k times Up and j times Down return the history entry that far back, or the oldest, or the text |
| `EditorSessions.TabCompletes` | aishell_main.c:4158-4161 | Tab puts what completion finds at the cursor |
| `LineEditor.UpThenDown` | aishell_main.c:4091-4114 | from the line being typed, k steps up and k down restore its text, with the cursor at the end unless no step was taken |
| `LineEditor.UpThenDownReturns` | aishell_main.c:4091-4114 | from inside the history: the whole line that k steps up and k down leave; the place comes back exactly if the way up was not cut short, and then the text exactly if the entry shown was not edited |
| `LineEditor.KeysKeep` | aishell_main.c:4061-4171 | any keys keep the text under 1024 bytes and without NUL, and the place within the history |
| `LineEditor.TypeThenBackspace` | aishell_main.c:4138-4171 | Backspace takes back a typed character that found room |
| `LineEditor.MovesKeepText` | aishell_main.c:4115-4118 | moving the cursor keeps the text, and Left and Right undo each other |
| `DiffLines.LinesEq` | cmd_diff.c:46-61 | the two-cursor loop decides equality of the lines with white space dropped and case folded as asked |
| `DiffLines.SpaceIsIgnoredAnywhere` | cmd_diff.c:50-53 | with -b, white space put in or left out anywhere makes no difference |
| `DiffLines.DocumentedAgreesIff` | cmd_diff.c:248 | the code agrees with its help text, which squeezes runs of white space to one blank, exactly on lines that differ otherwise or have white space at the same places |
| `DiffLines.BlankBetweenLetters` | cmd_diff.c:46-61 | ab and a b: the same to the code, different by its help text |
| `DiffLines.PlainSame` | cmd_diff.c:60 | without ignore flags only equal lines are the same |
| `DiffLines.SameIff` | cmd_diff.c:46-61 | two lines are the same exactly if, without white space under -b, they have the same characters at all places, up to the case of the 26 letters under -i |
| `DiffScript.TraceIsOptimal` | cmd_diff.c:68-114 | the traced script aligns the files, keeps a longest common subsequence, and no script that aligns them has fewer deletions and additions |
| `DiffScript.CommonIsBounded` | cmd_diff.c:76-86 | no common subsequence is longer than the table value at its end |
| `DiffScript.DeletionsComeFirst` | cmd_diff.c:97-104 | the tie-breaking puts the deletions of a change before its additions |
| `DiffLcs.FillTable` | cmd_diff.c:71-86 | every cell of the flat table of shorts holds the length of a longest common subsequence of its prefixes, without overflow while one file has at most 32767 lines |
| `DiffLcs.Traceback` | cmd_diff.c:89-105 | the backward walk writes the traced script in reverse, within its array |
| `DiffLcs.ReverseInPlace` | cmd_diff.c:109-111 | the swaps reverse the written part and touch nothing else |
| `DiffLcs.LcsDiff` | cmd_diff.c:68-114 | the result is a valid alignment with the greatest possible number of kept lines |
| `DiffUnified.EmitUnified` | cmd_diff.c:178-229 | the loops compute the hunks of the specification, with their headers and bodies |
| `DiffContext.ContextIsThreeLines` | cmd_diff.c:185-229 | read off the hunks: before its first and behind its last change a hunk shows the lesser of three and the number of kept lines there are, between two changes of a hunk at most six, and between two hunks at least one line is left out |
| `DiffUnified.HeaderIsExact` | cmd_diff.c:202-226 | each header gives exactly the ranges of both files that the body covers |
| `DiffUnified.EmptyRange` | cmd_diff.c:214-218 | a range is empty only if that whole file is |
| `DiffUnified.PatchYieldsSecondFile` | cmd_diff.c:178-229 | applying the hunks to the first file succeeds, hunks being disjoint and ascending, and yields the second line by line, exactly without ignore flags |
| `DiffFormat.FormatAgreesIff` | cmd_diff.c:202-218 | read as the unified format defines ranges of no lines, the hunks patch as before exactly if both files have lines or neither has; else they are refused |
| `DiffRun.UnchangedIffSame` | cmd_diff.c:318-321 | a script with as many kept lines as possible keeps all operations exactly if the files are the same line by line |
| `DiffRun.UnifiedDiff` | cmd_diff.c:306-333 | status 0 exactly for files that are the same, else status 1 and hunks that patch the first into the second, with exactly that context |
| `JsonBytes.Utf8RoundTrip` | cJSON.c:766-812 | the encoder has the strict decoder of section 3 of RFC 3629 as its inverse on every scalar value |
| `JsonBytes.Utf8Unique` | cJSON.c:766-812 | whatever decodes is the encoding of what it decodes to, so the encoding is the shortest |
| `JsonBytes.PairRoundTrip` | cJSON.c:729-763 | the surrogate pair of section 2.1 of RFC 2781 combines to its code point |
| `JsonBytes.ParseHex4` | cJSON.c:666-700 | four digits of either case, or 0 if one of them is none |
| `JsonString.MeasureString` | cJSON.c:838-866 | the first pass finds the closing quote and counts escapes |
| `JsonString.NextPiece` | cJSON.c:870-925 | one turn of the second pass writes no more than the first pass allows for, even out of step with it |
| `JsonString.ParseString` | cJSON.c:824-951 | on every content the second pass stays within the buffer of the first, and the result is the specified one |
| `JsonQuote.EscapedCharacterBecomesUtf8` | cJSON.c:703-821 | every code point written as one or two escapes, with any spelling of the digits, becomes its shortest UTF-8 form |
| `JsonQuote.EscapeIsStrictIff` | cJSON.c:703-821 | the escape is read as section 7 of RFC 8259 asks exactly if its first four digits are hexadecimal or cut off by the quote; else it is read as NUL instead of refused |
| `JsonQuote.CountExtra` | cJSON.c:982-1005 | the first pass counts exactly the bytes that escaping adds |
| `JsonQuote.WriteEscapes` | cJSON.c:1014-1066 | the second pass writes exactly the escaped text within the buffer |
| `JsonQuote.PrintStringPtr` | cJSON.c:954-1073 | the printed string is the quoted one, in a buffer sized by the count |
| `JsonPieces.StringIsReadIff` | cJSON.c:824-951 | a string is accepted at a place exactly if it is written there, by section 7 of RFC 8259 or with bad digits of \u as NUL, and exactly the bytes that are written are read |
| `JsonPieces.ValidIsRead` | cJSON.c:824-951 | every string of section 7 of RFC 8259, with any spelling of its characters, is among them |
| `JsonPieces.OutOfStep` | cJSON.c:838-925 | a string whose bad digits end in a backslash: it is read with its closing quote |
| `JsonPieces.LettersAre` | cJSON.c:884-908 | the escapes of one letter are those of the standard |
| `JsonPieces.HexDigitsAre` | cJSON.c:666-700 | the digits of both cases have the values of their places |
| `JsonPieces.ParseUndoesQuote` | cJSON.c:954-1073 | in particular a printed string is parsed back |
| `JsonBuffers.ParseBuffer.ParseValue` | cJSON.c:1368-1420 | the parser over a moving offset and depth computes the specified value and stops where it ends |
| `JsonBuffers.ParseBuffer.ParseArray` | cJSON.c:1497-1592 | the same for arrays, with the nesting limit |
| `JsonBuffers.ParseBuffer.ParseObject` | cJSON.c:1662-1777 | the same for objects |
| `JsonBuffers.ParseText` | cJSON.c:1147-1224 | the same for a whole text, with or without the demand that nothing follows |
| `JsonPrinter.PrintBuffer.Ensure` | cJSON.c:490-573 | afterwards there is room for the bytes and one more, unless the length would pass INT_MAX |
| `JsonPrinter.PrintBuffer.PrintValue` | cJSON.c:1423-1494 | behind all that was printed stand exactly the specified text, without NUL and terminated, every write in the ensured room; the offset is left where the source leaves it |
| `JsonPrinter.PrintBuffer.UpdateOffset` | cJSON.c:576-586 | strlen from the offset finds exactly the end of what was printed |
| `JsonPrinter.PrintBuffer.PrintArray` | cJSON.c:1595-1659 | the same for arrays |
| `JsonPrinter.PrintBuffer.PrintObject` | cJSON.c:1780-1896 | the same for objects, with the tabs and newlines of formatted output |
| `JsonPrinter.Print` | cJSON.c:1239-1304 | printing gives the specified text, or fails for nesting or for texts of about INT_MAX bytes |
| `JsonTexts.ParsesTextIff` | cJSON.c:1147-1224 | every JSON text, with any white space, any spelling of strings and perhaps a byte order mark, is parsed to the tree it writes exactly if that is nested at most 1000 deep and only white space follows or anything may |
| `JsonTexts.ReadWriting` | cJSON.c:1368-1420 | the same for a value inside a text, where parsing stops just past it |
| `JsonAccepted.AcceptedIff` | cJSON.c:1147-1224 | a text is accepted, and gives a tree, exactly if that tree is written at its beginning and nested at most 1000 deep, so whatever is unclosed, wrongly separated or misspelt is refused |
| `JsonAccepted.ValueIsReadIff` | cJSON.c:1368-1777 | the same for a value at any place of a text |
| `JsonAccepted.AcceptedIsClosed` | cJSON.c:1566-1570 | an accepted array or object ends with its bracket |
| `JsonTexts.WordsAre` | cJSON.c:1376-1420 | the words and marks are those of section 2 of RFC 8259 |
| `JsonRoundTrip.PrintedIsText` | cJSON.c:1423-1494 | what is printed for a tree, formatted or not, is a JSON text of that tree |
| `JsonRoundTrip.PrintedIsLaidOut` | cJSON.c:1595-1896 | it has no white space outside of strings; or, formatted, one line for each member, indented by its depth, with a tab behind the colon, and items separated by a comma and a blank |
| `JsonRoundTrip.ParseUndoesPrint` | cJSON.c:1368-1896 | parsing a printed tree of null, booleans, ints, NUL-free strings, arrays and objects up to 1000 deep gives it back, formatted or not, with member order and repeated names |
| `JsonRoundTrip.PrintsIff` | cJSON.c:1423-1494 | printing succeeds exactly on trees nested at most 1000 deep |
| `JsonRoundTrip.ReadValue` | cJSON.c:1368-1420 | wherever a printed value stands in a text, parsing there gives it back |
| `JsonRoundTrip.IntsArePlain` | cJSON.c:596-663 | every int of 32 bits is printed as an int |
| `JsonRoundTrip.IntTextIs` | cJSON.c:618-625 | an int is printed as its decimal digits without leading zeros, behind a minus if it is negative |
| `JsonRoundTrip.ValueIntIs` | cJSON.c:386-400 | the int of a double is the double without its fraction, held between the least and the greatest int |
| `JsonList.AddItemToArray` | cJSON.c:2027-2058 | the list gets one more item and stays well formed exactly if it was empty or the item had no next |
| `JsonList.GetArrayItem` | cJSON.c:1922-1938 | the item at an index, or null past the end |
| `JsonList.DetachItemViaPointer` | cJSON.c:2258-2292 | the list loses exactly that item and stays well formed, and the item points nowhere |
| `JsonList.InsertItemInArray` | cJSON.c:2334-2366 | the item comes to stand at the index, or at the end; well formed under the exact condition of appending |
| `JsonList.ReplaceItemViaPointer` | cJSON.c:2368-2415 | the replacement takes exactly the place of the item |
| `JsonList.LinkParsed` | cJSON.c:1541-1579 | the pointers that parsing sets form a well-formed list |
| `JsonList.ApplyAll` | cJSON.c:2027-2415 | any sequence of append, insert, detach and replace keeps the list well formed and changes the sequence by exactly those operations |
| `DigestPadding.ZeroCountIsLeast` | hash_utils.c:70-73 | the zeros are the fewest that complete a block; section 3.1 of RFC 1321 |
| `DigestPadding.PadIsInjective` | hash_utils.c:70-75 | different messages have different padded messages |
| `DigestPadding.LengthReadsBack` | hash_utils.c:74 | the eight bytes read back, low or high byte first, as the number of bits modulo 2^64, which is exact under 2^61 bytes |
| `DigestPadding.FoldJoin` | hash_utils.c:66-69 | folding blocks goes on over joined messages |
| `DigestBlocks.SameIndex` | hash_utils.c:48-51 | the code's index formulas are the word sequences of section 3.4 of RFC 1321 in steps of 1, 5, 3 and 7 |
| `DigestBlocks.SameAux` | hash_utils.c:48-51 | its round functions are F, G, H and I |
| `DigestBlocks.AuxChooses` | hash_utils.c:48-49 | F and G choose between two words bit by bit, in the two spellings of the code |
| `DigestBlocks.RotlIsCircular` | hash_utils.c:8 | the shift-and-or macro is a circular shift, by each amount that is used |
| `DigestBlocks.LowFirstHolds` | hash_utils.c:39-43 | the four bytes stand in the word low byte first |
| `DigestBlocks.HighFirstHolds` | hash_utils.c:116-117 | the four bytes stand in the word high byte first |
| `DigestBlocks.Step` | hash_utils.c:46-54 | one turn of the rotating loop is one operation of the standard, which names its register |
| `DigestBlocks.Md5Rounds` | hash_utils.c:45-54 | after 64 turns the registers are back in place and hold the standard's result |
| `DigestBlocks.Md5BlockInPlace` | hash_utils.c:36-56 | the state becomes the standard's function of the old state and the block |
| `DigestBlocks.ShaFunctionsAre` | hash_utils.c:105-111 | Ch chooses, Maj is the majority, and the four sums are of circular and plain shifts; section 4.1.2 of FIPS 180-4 |
| `DigestBlocks.FillSchedule` | hash_utils.c:115-120 | the array is the message schedule of section 6.2.2 of FIPS 180-4 |
| `DigestBlocks.ShaRounds` | hash_utils.c:122-127 | the loop computes the 64 steps on a to h |
| `DigestBlocks.Sha256BlockInPlace` | hash_utils.c:113-130 | the state becomes the standard's function of the old state and the block |
| `DigestConstants.ShaConstantsAreRoots` | hash_utils.c:85-138 | the round constants are the first 32 bits of the fractions of the cube roots of the first 64 primes, and the initial state those of the square roots of the first eight; sections 4.2.2 and 5.3.3 of FIPS 180-4 |
| `DigestConstants.Md5InitialIs` | hash_utils.c:60-62 | the initial state is that of section 3.3 of RFC 1321 |
| `DigestStream.TailBlocks` | hash_utils.c:70-75 | the end of the message, the mark, the zeros and the length fill one block or two, by the test on 56 |
| `DigestStream.Finish` | hash_utils.c:147-152 | the end of the function folds exactly those blocks |
| `DigestStream.Digest` | hash_utils.c:132-152 | for every file the streaming loop with its 64-byte buffer gives the standard's fold over the whole padded message, for both algorithms |
| `DigestStream.HexDigest` | hash_utils.c:58-82 | the returned text is the hexadecimal form of that, 32 or 64 digits |
| `DigestStream.HexWordIs` | hash_utils.c:77-81 | each word is shown as its four bytes in hexadecimal, in the algorithm's order, high digit first |
| `DigestStream.HexIsInjective` | hash_utils.c:77-81 | equal texts are equal digests |
| `IcmpChecksum.Checksum` | cmd_ping.c:32-40 | the loops give the ones' complement of the sum with its carries folded in, of the sum modulo 2^32 beyond 128 KiB |
| `IcmpChecksum.FilledIsAccepted` | cmd_ping.c:180 | filled into its zero field, the checksum makes the packet accepted |
| `IcmpChecksum.EchoRequest` | cmd_ping.c:173-180 | the request carries type, id and number in network order and is accepted |
| `IcmpChecksum.ChangedWordIsNoticedIff` | cmd_ping.c:32-40 | a changed word goes unnoticed exactly between the two zeros 0 and 65535 |
| `IcmpChecksum.ChecksumIgnoresByteOrder` | cmd_ping.c:32-40 | summing in the other byte order exchanges the bytes of the result, so the packet is the same on every machine |
| `XargsSplit.SplitBlanks` | cmd_xargs.c:100-110 | the items are the maximal runs without white space up to the cap, and each is read back from the cut buffer as its run up to a NUL of its own |
| `XargsSplit.SplitNulls` | cmd_xargs.c:81-87 | the same for NUL as separator, with the buffer unchanged |
| `XargsSplit.SplitDelimited` | cmd_xargs.c:88-99 | the items are the runs between delimiters up to the cap, except exactly a last one that no delimiter ends and that begins with NUL; each is read back from the cut buffer |
| `XargsSplit.KeptSplitsIff` | cmd_xargs.c:88-99 | what is kept is the whole split exactly if no such last run is reached below the cap |
| `XargsSplit.SplitsIsUnique` | cmd_xargs.c:73-112 | order and cap leave only one list of items |
| `XargsSplit.NothingIsLost` | cmd_xargs.c:73-112 | below the cap every character that does not separate stands in an item |
| `XargsPool.RecordAllIsVerdict` | cmd_xargs.c:117-123 | the recorded result is 123 if any child exited with 255, else 1 if any failed, else 0 |
| `XargsPool.OrderIsIrrelevant` | cmd_xargs.c:117-123 | it does not depend on the order in which children end |
| `XargsPool.Pool.WaitSlot` | cmd_xargs.c:126-144 | afterwards a slot is free, and the pool still has as many nonzero slots as it counts, which are its running children, each once |
| `XargsPool.Pool.Add` | cmd_xargs.c:146-150 | the new child gets a free slot |
| `XargsPool.Pool.Drain` | cmd_xargs.c:152-163 | afterwards every child ever added is recorded exactly once and the result is the verdict on all of them |
| `XargsPool.BatchesPartition` | cmd_xargs.c:429-431 | batches are nonempty, at most n long, all but the last exactly n, and together the items |
| `XargsPool.BatchCommandIs` | cmd_xargs.c:427-432 | command k is the base followed by exactly the items from k times n on, n of them or the rest |
| `XargsPool.RunBatches` | cmd_xargs.c:427-440 | the forks are the first batches in order and nothing follows one that failed; the result is 125 exactly if one failed, and else the verdict on all children; every batch was started unless a fork failed or a child exited with 255; no child is left |
| `XargsPool.RunReplacing` | cmd_xargs.c:419-426 | the same for one command an item |
| `XargsPool.StatusIsOfWholePlan` | cmd_xargs.c:419-440 | the exit status is 125 after a refused fork and else the verdict on how each command of the plan ends, started or not: the number of processes and the order of events do not matter |
| `XargsPool.SubstituteArgv` | cmd_xargs.c:188-203 | each argument has the item in place of every occurrence of the placeholder |
| `XargsPool.SubstitutedMeans` | cmd_xargs.c:188-203 | each argument is its pieces between the placeholders, with the item put between them |
| `Replace.ReplacedMeans` | cmd_xargs.c:20-47 | the text is pieces joined by the pattern, in none of which an occurrence begins; the result is the same pieces joined by the new text |
| `Replace.ReplacedLength` | cmd_xargs.c:31-33 | its length is the source and count times the difference |
| `Replace.CountOccurrences` | cmd_xargs.c:26-28 | the counting pass counts the occurrences that are replaced |
| `Replace.CopyReplaced` | cmd_xargs.c:37-45 | the copying pass writes the replacement within the buffer |
| `Replace.ReplaceAll` | cmd_xargs.c:20-47 | the result fills its buffer exactly |
| `Replace.EditReplace` | cmd_edit.c:185-226 | occurrences before the first NUL are replaced, everything from there on is kept, and the buffer sized beforehand is large enough |
| `Replace.NoOccurrenceStraddles` | cmd_edit.c:194-219 | an occurrence that begins before the first NUL ends before it |
| `CStrings.HeadIs` | cmd_edit.c:196 | a C string is the only prefix without NUL that a NUL or the end follows |
| `EditLines.ReadLines` | edit_utils.c:8-33 | the growing array holds the fgets chunks, each up to its first NUL |
| `EditLines.ChunksAre` | edit_utils.c:17-19 | the chunks are the file; all but a short last one without newline are closed |
| `EditLines.WriteLines` | edit_utils.c:42-43 | the file becomes the lines one after the other |
| `EditLines.ReadThenWriteIff` | edit_utils.c:8-48 | reading and writing back keeps a file exactly if it has no NUL |
| `EditLines.InsertLine` | cmd_edit.c:71-123 | the new file, or an error and no change for a line number out of range |
| `EditLines.DeleteLine` | cmd_edit.c:126-153 | the same for deletion, with the lines shifted in place |
| `EditLines.ReplaceLine` | cmd_edit.c:30-68 | the same for replacement |
| `EditLaws.InsertedIs` | cmd_edit.c:71-123 | in every file without NUL the text, with a newline, stands where line n began, or at the end, and all else is as it was |
| `EditLaws.DeletedIs` | cmd_edit.c:126-153 | exactly the bytes of line n are gone |
| `EditLaws.ReplacedIs` | cmd_edit.c:30-68 | exactly the bytes of line n have become the text, with a newline |
| `EditLaws.MissingFile` | cmd_edit.c:30-153 | a file that does not exist can only get a first line |
| `EditLaws.LineStands` | edit_utils.c:8-33 | the lines stand one behind the other from the beginning of the file to its end |
| `EditLaws.ReplaceReadsBackIff` | cmd_edit.c:30-68 | the file is read back with line n as the text and all others unchanged exactly if the text is one line |
| `EditLaws.DeleteReadsBack` | cmd_edit.c:126-153 | after a deletion exactly the other lines are read |
| `EditLaws.ReplaceIsDeleteThenInsert` | cmd_edit.c:30-153 | replacing line n is deleting it and inserting the text there, for every number and text |
| `EditLines.InsertThenDeleteIff` | cmd_edit.c:71-153 | inserting and deleting a line restores the bytes exactly if the file has no NUL, the text is read back as one line, and it was not appended behind a short last line without newline |
| `EditLines.OneLineIs` | edit_utils.c:56-65 | the text is read back as one line exactly if it has no newline but at its end and at most 8190 bytes before that |
| `EditLines.ReplaceBySameIff` | cmd_edit.c:30-68 | replacing a line by itself keeps the file exactly if it has no NUL and the line ends with a newline |

## Left out

- Shell: the timing output, and `break` and `continue` reached through a builtin that evaluates further input.
- Shell: lexing, parsing, word expansion and what a simple command or pipeline does are parameters; a background job made of one command is one step of the machine.
- `$((...))`: what a run does after it overran a name's array; the methods of the model end there. Signed overflow of sums, products and negation, which C leaves undefined, is wrap-around in `Wrapping`.
- `$((...))`: that evaluating eagerly and at run time agree in arbitrary lines is not claimed, since the text around an expansion may join it.
- Job table: reuse of process ids by the system, cancellation of a thread inside a section, and the exit status of foreground jobs against the reaper. A thread id is stored once for each job, as its creator does.
- JobWaits: that what is recorded for a job is its child's exit code is assumed of the system (`Honest`), and a waiter interrupted by a signal is not modelled.
- JobRuns.NoThreadIsClaimedTwice: this corollary of `JobRuns.NoJobIsClaimedTwice` assumes that different jobs got different thread ids; the system may give the id of a joined thread to a later one.
- Pipelines: builtin stages, which run as threads with duplicated descriptors, and forks by other threads meanwhile. The contents of pipes and their capacity are not modelled, so that a writer may wait for room is not either.
- Pipelines: the descriptors 0 and 1 are open when a pipeline starts; a program's descendants are part of its stage.
- Line editor: drawing, terminal modes, the search that tab completion makes, and the input from a pipe.
- diff: the traditional output and -q, printing, and files of more than 4096 lines, of which the code reads the first 4096.
- cJSON: numbers that are not ints (their conversion is a parameter), NaN and infinities, error positions, failing allocations, deletion, duplication, comparison, Minify, preallocated buffers and raw values.
- cJSON lists: names of object members, and access to them; the item that a replacement frees is only unlinked.
- Digests: read errors, which the code takes for the end of the file. The table of MD5, which is defined by sines, is the one printed in RFC 1321; that the primes are the first 64 is not proved.
- ICMP: a big-endian machine with an odd packet length, which ping never sends; sockets and timing.
- xargs: option parsing, reading the input, failing allocations, children that xargs did not start, and interrupted waits. Counts stay below INT_MAX.
- edit: paths, the temporary file and its renaming, files over ten megabytes, failing allocations.
- Small filters, file commands, help output, sockets, the MCP and FTP loops and configuration: they hold no deep invariant.
