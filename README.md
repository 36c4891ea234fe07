# smallsh in Dafny

This project models `main.c` of smallsh, a small interactive Unix shell. The
shell reads one line at a time. It skips every line whose first character
is white space (a blank line, but also " ls") or `#`, and it stops at the
exact line `exit\n`. An `exit` line is recognised before any expansion.
Every other line goes through these steps:

- each leftmost, non-overlapping `$$` is replaced by the shell's PID, so `$$$` becomes the PID followed by `$`;
- the line is split on spaces into a command, its arguments, an optional
  `< file`, an optional `> file` and a trailing `&`;
- the line is run:
  - `cd` and `status` run inside the shell;
  - every other command is forked and executed, either in the foreground
    (the shell waits for it) or in the background (its PID goes into a
    100-slot job table).

Before every prompt the shell polls the job table. It removes each finished
child in place and prints one line per child it reaped. SIGTSTP toggles
foreground-only mode, and in that mode `&` is ignored.

Every system call is replaced by its outcome, which the caller supplies:

- `getpid` becomes a `nat`;
- the lines `getline` returns become a sequence of lines;
- `fork` becomes a spawn PID;
- `waitpid` becomes a `WaitOutcome`, or a map of the children that have finished;
- `open` and `dup2` become a `Redirection` result;
- `execvp` and `chdir` become booleans;
- `getenv("HOME")` becomes an `Option`.

The modules follow the program's parts:

- `Decimal`: `%d` formatting;
- `Expansion`: `variable_expansion`;
- `Parser`: `strtok_r` tokenising and `parse_command_line`;
- `Jobs`: the job table, `remove_val_at_index` and `check_background_procs`;
- `Launch`: the decisions of `fork_child`, `input_redirect`, `output_redirect` and `display_status`;
- `Sigtstp`: `handle_SIGTSTP`;
- `Shell`: a class holding main's state (`status`, `foreground_only` and the job array with its count), with a method for each operation that changes that state;
- `MainLoop`: main's two nested `do`/`while` loops.

Where this model and the written description of the program disagree, the
model follows the code, with two exceptions: the two bugs under
"## Findings". For each, the model keeps the code as written in a member of
its own, and the shell is modelled with the corrected behaviour.

- `status` prints "exit value N" only for a status of 0 or 1. Any other
  number prints as "terminated by signal N", including an exit code such as
  7. `Launch.StatusConflatesExitAndSignal` states this.
- The parent announces a background child as `background PID is N`. A
  reaped child is reported as `background pid N is done: …`. Both spellings
  are kept as the code has them.
- A background command with foreground-only mode on is not registered,
  the shell waits for it, and neither of its streams defaults to
  `/dev/null`. The code as written also keeps SIGINT ignored in that child,
  unlike a foreground command (first row of "## Findings"); the model
  restores it, as for any foreground command.

## Model

| member | source | states |
|---|---|---|
| Decimal.DecimalString | main.c:152 | `%d` of a non-negative number is a non-empty digit string with no leading zero, and "0" for zero |
| Decimal.FormatInt | main.c:446 | `%d` starts with '-' exactly for negative numbers; otherwise it is all digits |
| Decimal.ParseDecimalString | main.c:152 | reading the digits back gives the number: the PID text holds the PID |
| Decimal.FormatIntInjective | main.c:446 | distinct numbers print differently |
| Expansion.FindPair | main.c:155-167 | strstr for "$$" from a position: the first pair at or after it, or none at all |
| Expansion.ExpandCopiesPrefix | main.c:161 | text before the first pair is copied unchanged |
| Expansion.ExpandWithoutPairIsIdentity | main.c:169-171 | a line with no "$$" is unchanged, with no replacements |
| Expansion.ExpandLength | main.c:144-174 | the output grows by (digits of the PID − 2) for each replacement |
| Expansion.ExpansionHasNoPair | main.c:159-168 | the expanded text contains no "$$", because pairs are consumed left to right and the PID is digits only |
| Expansion.ExpandIdempotent | main.c:144-174 | expanding again changes nothing |
| Expansion.TripleAndQuadrupleDollar | main.c:159-168 | "$$$" becomes PID + "$", and "$$$$" becomes two PIDs |
| Expansion.ExpandAtFoundPair | main.c:159-165 | one loop round: copy up to the found pair, append the PID, continue after the pair |
| Expansion.ExpandRestWithoutPair | main.c:169-171 | once no pair is left, the rest is copied without its final newline |
| Expansion.ExpansionStep | main.c:159-168 | each loop round keeps the result equal to the expansion of the line so far, and inside the final length |
| Expansion.VariableExpansion | main.c:144-174 | the loop returns exactly the expansion of the line without its newline, with the PID as decimal text |
| Parser.SkipSpaces | main.c:191 | strtok_r skips to the first non-space character or to the end |
| Parser.TokenEnd | main.c:191 | a token runs to the next space or to the end |
| Parser.NextToken | main.c:191-201 | each strtok_r call moves the save position strictly forward |
| Parser.NextTokenShape | main.c:191-226 | no token exactly when only spaces remain; every token is non-empty and has no space |
| Parser.NextTokenText | main.c:191-201 | one token is the next run of non-space text, and nothing is lost |
| Parser.TokensCoverText | main.c:191-227 | the tokens joined together are the line with its spaces removed, and each token is non-empty and space-free |
| Parser.Scan | main.c:202-227 | the tokens after the command yield at most one argument each, and a named input or output file is one of those tokens |
| Parser.ScanAppend | main.c:202-227 | scanning two token runs one after the other is the same as scanning them joined |
| Parser.LaterRedirectionWins | main.c:204-217 | a later `<` or `>` replaces the earlier file and leaves the arguments and the other file alone |
| Parser.ScanArgsHaveNoRedirect | main.c:204-224 | no lone `<` or `>` ends up among the arguments, and there are no more arguments than tokens |
| Parser.ScanWithoutRedirects | main.c:218-224 | tokens without redirections all become arguments, in order |
| Parser.ParseTokens | main.c:183-240 | the command and args[0] are the first token, and the files are those the scan of the rest names |
| Parser.ParseTokensShape | main.c:183-243 | parsing tokens: args[0] is the command; `&` is stripped exactly when it is the last of at least two arguments; the files are the last ones named |
| Parser.ParseRedirectionExample | main.c:204-217 | `wc < in.txt > out.txt` has both files set and only `wc` as an argument |
| Parser.ParseBackgroundExample | main.c:228-237 | `sleep 5 &` runs in the background with arguments `sleep 5` |
| Parser.TokensFromStep | main.c:226 | the token list is the next token followed by the list from after it |
| Parser.InputTokenStep | main.c:204-210 | a `<` round takes the next token as the input file and keeps the scan invariant |
| Parser.OutputTokenStep | main.c:211-217 | a `>` round takes the next token as the output file and keeps the scan invariant |
| Parser.ArgumentTokenStep | main.c:218-224 | any other token is appended to the arguments, keeping the invariant and the 512 bound |
| Parser.LastTokenStep | main.c:202-227 | when strtok_r returns NULL the scan is complete |
| Parser.ScanTokens | main.c:200-227 | the token loop returns exactly the model scan of the remaining tokens |
| Parser.ParseCommandLine | main.c:183-243 | the parse equals the token-level parse of the line; args[0] is the command and the first token; at most 512 arguments |
| Jobs.RemoveAt | main.c:381-387 | removing index i keeps the entries before i and shifts the later ones down by one |
| Jobs.RemoveValAtIndex | main.c:381-387 | in place: the live prefix loses entry i, the vacated last slot keeps its old value, the slots past it are unchanged, and the count drops by one |
| Jobs.Unfinished | main.c:349-375 | the table kept after a pass is no longer than before |
| Jobs.UnfinishedMembers | main.c:360-362 | a PID stays exactly when it was registered and its child has not finished |
| Jobs.ReapPartitions | main.c:354-374 | kept and reported entries split the table: the lengths add up and the multisets combine to the old table |
| Jobs.ReportedExactlyOnce | main.c:365-372 | every finished registered child is reported exactly once, and nothing else is reported |
| Jobs.DoneMessage | main.c:366-372 | a reaped child's line starts with "background pid " and its PID, and ends in a newline |
| Jobs.DistinctOccursOnce | main.c:365-372 | a PID in a duplicate-free table occurs once |
| Jobs.KeptPositions | main.c:354-364 | the kept entries occur in the old table at strictly increasing positions: the order is preserved |
| Jobs.UnfinishedDistinct | main.c:360-364 | removal keeps the table free of duplicates |
| Jobs.UnfinishedPositive | main.c:360-364 | removal keeps only positive PIDs |
| Jobs.AllFinishedEmptiesTable | main.c:354-374 | when every child has finished, the table is emptied and every entry is reported in order |
| Jobs.WaitNoHang | main.c:356 | the WNOHANG poll: -1 for a child already reaped, its own PID for a finished child not yet reaped, 0 for a running one |
| Jobs.ReapOneMore | main.c:354-374 | one more old entry extends the kept list, the reported list and the output by that entry alone |
| Jobs.RemovalKeepsTable | main.c:362 | removing a reaped PID keeps the table distinct and positive, and drops only that PID |
| Jobs.PassStarts | main.c:351-354 | the pass invariant holds before the first poll |
| Jobs.PassStaleSlot | main.c:354-360 | a slot past the shrunken count never reports again: its PID is still live or already reaped |
| Jobs.PassSkips | main.c:356-360 | a poll that finds the child running moves on and keeps the invariant |
| Jobs.PassReportsLiveOnly | main.c:356-360 | a poll that reaps always lands on a live entry of the original table |
| Jobs.PassReaps | main.c:360-372 | a reap keeps the invariant once the entry is removed and the index is stepped back |
| Jobs.PassEnds | main.c:354-375 | at the end of the pass: the table is the unfinished entries, the report and output are the finished ones, and the slots from the original count onward are untouched |
| Jobs.CheckBackgroundProcs | main.c:349-375 | the pass leaves exactly the unfinished children in order, reports and prints each finished one once in table order, and leaves the count at old count − reaped |
| Launch.EffectiveBackground | main.c:414 | the test `run_in_background & !foreground_only`, repeated at main.c:444, 495 and 543: only `&` makes a command background, and foreground-only mode always overrides it |
| Launch.InputTarget | main.c:477-496 | stdin is the named file exactly when one was given, /dev/null exactly when none was given and the command is effectively background, and inherited otherwise |
| Launch.OutputTarget | main.c:525-544 | the same rule for stdout |
| Launch.InputFailure | main.c:476-513 | input_redirect prints a line and exits exactly when a stream is redirected and open or dup2 fails |
| Launch.OutputFailure | main.c:524-561 | output_redirect prints a line and exits exactly when a stream is redirected and open or dup2 fails |
| Launch.DefaultStreamsFollowBackground | main.c:476-561 | a named file always wins; with none, the stream goes to /dev/null exactly for an effectively background command, and is inherited otherwise |
| Launch.ForegroundOnlyKeepsTerminal | main.c:495-544 | in foreground-only mode no stream defaults to /dev/null (the stdin test at main.c:495-496 and the stdout test at main.c:543-544); `&` is treated as absent |
| Launch.RunChild | main.c:423-441 | the child runs exactly when both redirections succeed and execvp succeeds, with argv = args and the chosen streams; otherwise the first failure decides the end: the input line, else the output line, else execvp's failure naming the program; SIGINT is restored by the corrected condition (see "## Left out") |
| Launch.FailedLaunchShowsExitValueOne | main.c:423-441 | the shell fixes the child's outcome exactly when a redirection or execvp fails, and then it is exit(1): the wait prints nothing for it and `status` shows "exit value 1", as for a program that exits with 1 itself |
| Launch.StatusAfterWait | main.c:454-461 | the foreground wait leaves the exit code after a normal exit and the signal number after a kill, never a negative number |
| Launch.WaitReport | main.c:454-461 | the wait prints nothing exactly after a normal exit; a kill prints one line |
| Launch.DisplayStatus | main.c:300-308 | the `status` output is one line ending in a newline |
| Launch.StatusShowsExitValue | main.c:454-456 | after an exit with 0 or 1, `status` shows "exit value" and the code, and the wait prints nothing |
| Launch.StatusRepeatsSignalReport | main.c:457-461 | after death by signal s ≥ 2, `status` repeats the line the wait printed |
| Launch.StatusConflatesExitAndSignal | main.c:300-308 | an exit code and a signal with the same number display alike; an exit code ≥ 2 shows as a signal |
| Launch.DisplayStatusInjective | main.c:300-308 | different statuses display differently |
| Launch.DoneMessageAgreesWithStatus | main.c:366-372 | a reaped child's outcome is worded as `status` would word it, wherever `status` tells exit codes and signals apart |
| Launch.SigintConditionAsWrittenDiffers | main.c:426-429 | the written SIGINT condition disagrees with the foreground rule exactly when `&` was given |
| Sigtstp.WritesStayInStorage | main.c:602-612 | both writes stay within their literal; the entry write's 53rd byte is the NUL |
| Sigtstp.Toggle | main.c:599-613 | the handler flips the mode and writes the message matching the old mode, and nothing more |
| Sigtstp.ToggleDiffersOnlyByNul | main.c:607-612 | the as-written handler differs from the corrected one only by the trailing NUL of the entry message |
| Sigtstp.ToggleFlipsMode | main.c:599-613 | two toggles restore the mode, and consecutive messages differ |
| Sigtstp.SignalsParity | main.c:599-613 | an even number of signals restores the mode and an odd number inverts it |
| Shell.Dispatch | main.c:270-291 | `cd` exactly for the command "cd" (HOME when alone, args[1] otherwise), the status report exactly for "status", a fork for everything else |
| Shell.ChangeDirReport | main.c:314-320 | change_dir prints nothing exactly when there is a target and chdir succeeds, and "Error changing directories." otherwise |
| Shell.DispatchCdGoesHome | main.c:270-280 | `cd` alone, and `cd &`, go to HOME |
| Shell.DispatchCdTakesFirstArgument | main.c:276-279 | `cd a b` goes to `a` |
| Shell.DispatchStatusAndOthers | main.c:281-291 | `status` ignores its arguments; any other command is forked |
| Shell.DispatchForksExactlyOthers | main.c:270-291 | a command is forked exactly when it is neither `cd` nor `status`; `cd` with an argument goes to the first one |
| Shell.Shell.constructor | main.c:77-84 | status 0, foreground-only off, empty table, all 100 slots zero |
| Shell.Shell.ReapFinished | main.c:93 | the table keeps only unfinished children and stays distinct and positive; the slots it gave up hold only old PIDs; the reported PIDs and printed lines are the finished ones; status and mode are untouched |
| Shell.Shell.ForkChild | main.c:406-465 | slot count takes the PID (even on fork failure) exactly when effectively background; fork failure ends the shell; the parent announces, or waits and records the status and signal line |
| Shell.Shell.HandleSigtstp | main.c:599-613 | the shell's mode and output follow the corrected Toggle (see "## Left out"); the table stays valid, and status and jobs are untouched |
| Shell.Shell.HandleCommandLine | main.c:267-292 | `cd` prints the chdir report, `status` prints the status, other commands behave as ForkChild; built-ins change no state |
| MainLoop.Classify | main.c:95-99 | a line is skipped exactly when its first character is white space or `#`, and ends the loop exactly when it is "exit\n" |
| MainLoop.ClassifyExamples | main.c:95-99 | a leading blank or `#` skips a line; only the exact line "exit\n" exits, so "exit \n" is a command |
| MainLoop.ExitIndex | main.c:108 | the first "exit\n" line, with none before it |
| MainLoop.HandledBeforeExit | main.c:86-108 | the lines handled are the command lines before the first exit line |
| MainLoop.LinesAfterExitIgnored | main.c:99-108 | input after the exit line changes nothing |
| MainLoop.ExitIndexAppend | main.c:108 | appending input does not move an exit line that is already present |
| MainLoop.ReadLoop | main.c:86-108 | the nested loops hand exactly those lines on, read up to and including the exit line, and poll the jobs once per read |

## Left out

- System calls are outcomes that the caller supplies: `getpid`, `getline`, `fork`, `waitpid`, `open`, `dup2`, `execvp`, `chdir` and `getenv`. What the operating system does with them is outside the model.
- kill_children (main.c:655-668), which sends SIGKILL to every job on `exit`, is process control only. It changes none of the shell's state.
- get_command_line (main.c:126-137) is modelled only as the sequence of lines it returns. The ": " prompt and the read-error message are left out.
- free_memory, initialize_struct, print_command_line and get_cwd manage memory or print debug output. They are not modelled.
- Signal disposition is not modelled as such. signal_handling, ignore_SIGINT, restore_SIGINT and ignore_SIGTSTP appear only as the `sigintDefault` flag of a running child. The SIGTSTP handler is a step taken between commands. Asynchronous delivery, SA_RESTART and `sig_atomic_t` are left out.
- The perror text on stderr for a failed fork or execvp, and all fflush calls, are not modelled.
- Launch.RunChild: its `sigintDefault` is the corrected condition Launch.RestoresSigint, not the one main.c:427 tests. For a `&` command the code as written gives the opposite, which Launch.RestoresSigintAsWritten and Launch.SigintConditionAsWrittenDiffers state.
- Shell.Shell.HandleSigtstp: writes the 52 characters of the entry message. main.c:609 also writes the NUL after them, as Sigtstp.ToggleAsWritten and Sigtstp.ToggleDiffersOnlyByNul state.
- Expansion.VariableExpansion and Parser.ParseCommandLine: a line is a sequence of characters with no NUL byte in it. getline can return a line with an embedded NUL, and the C string functions then stop at it. For example, `"ls\0x\n"` expands to "l" in the C program, which the model does not capture.
- Shell.Shell.ForkChild: requires a free slot when a command runs in the background. The C program writes past the 100 calloc'ed slots, which is undefined behaviour.
- Shell.Shell.HandleCommandLine: requires fewer than 512 arguments for a forked command. The C program's NULL terminator would otherwise be written past the 512-slot array.
- Parser.ParseCommandLine: requires a parsable line. The line must have at least one token, every `<` or `>` that the scan takes as an operator is followed by a token (an operand may itself be `<` or `>`, and is then a file name), and there are at most 512 arguments. The C program otherwise calls strlen(NULL) or writes past its array.
- Expansion.VariableExpansion: requires a line ending in '\n' and an expansion shorter than 2048 characters. A final line at end of file without a newline, and overflowing the calloc'ed buffer, are not modelled.
- Jobs.CheckBackgroundProcs: takes the children that have finished as a map, fixed for the whole pass. A child finishing while a pass runs is not modelled. The `status` parameter is never written in the C function, so it is omitted.
- MainLoop.ReadLoop: requires an "exit\n" line in the input. End of file, where getline fails, is not modelled. The loop returns the lines it hands on, not the effect of handling them, which the Shell methods model.
- A `char` stands for one byte of the C string. Lengths, such as the 2048-byte bound on the expanded line, count bytes; a multi-byte character is several `char`s here.
- Integers are unbounded. PIDs, exit codes and signal numbers are never near the 32-bit limits.

## Findings

| source | as written | input that shows it | evidently intended | confidence | as-written member | corrected member |
|---|---|---|---|---|---|---|
| main.c:426-429 | the child restores SIGINT when either `run_in_background` or `foreground_only` is false | `sleep 5 &` with foreground-only mode off: this real background child restores SIGINT; with the mode on, the same command runs in the foreground and keeps ignoring SIGINT | restore SIGINT exactly in a child that runs in the foreground, as the comment at main.c:426 says | not executed | Launch.RestoresSigintAsWritten, Launch.SigintConditionAsWrittenDiffers | Launch.RestoresSigint, used by Launch.RunChild |
| main.c:607-609 | `write(STDOUT_FILENO, message3, 53)` for a 52-character literal | SIGTSTP with foreground-only mode off: the 53rd byte written is the literal's NUL terminator | write the 52 characters of the message | not executed | Sigtstp.ToggleAsWritten, Sigtstp.WritesStayInStorage | Sigtstp.Toggle, Sigtstp.ToggleDiffersOnlyByNul, used by Shell.Shell.HandleSigtstp |
