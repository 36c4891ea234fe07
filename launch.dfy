/**
 * The decisions fork_child, input_redirect and output_redirect make, with
 * every system call replaced by its outcome: whether a command runs in the
 * background, where the child's stdin and stdout go, what the child prints
 * before exit(1), whether SIGINT is restored in the child, and how a
 * foreground wait sets the status that display_status later prints.
 */
module Launch {

  import opened Wrappers
  import opened Decimal
  import opened Parser
  import opened Jobs

  /**
   * `run_in_background & !foreground_only`: the one condition behind
   * registration in the job table, the parent's no-wait branch and the
   * /dev/null defaults of both redirections.
   */
  predicate EffectiveBackground(runInBackground: bool, foregroundOnly: bool)
    ensures EffectiveBackground(runInBackground, foregroundOnly) ==> runInBackground
    ensures foregroundOnly ==> !EffectiveBackground(runInBackground, foregroundOnly)
  {
    runInBackground && !foregroundOnly
  }

  /** Where one of the child's standard streams ends up. */
  datatype Stream = File(path: seq<char>) | DevNull | Inherit

  /** input_redirect's choice: the named file, else /dev/null for a background command, else the shell's stdin. */
  function InputTarget(cmd: CommandLine, foregroundOnly: bool): (r: Stream)
    ensures r.File? <==> cmd.inputFile.Some?
    ensures r.File? ==> r.path == cmd.inputFile.value
    ensures r == DevNull <==> cmd.inputFile.None? && EffectiveBackground(cmd.runInBackground, foregroundOnly)
  {
    match cmd.inputFile
    case Some(path) => File(path)
    case None => if EffectiveBackground(cmd.runInBackground, foregroundOnly) then DevNull else Inherit
  }

  /** output_redirect's choice, the same rule for stdout. */
  function OutputTarget(cmd: CommandLine, foregroundOnly: bool): (r: Stream)
    ensures r.File? <==> cmd.outputFile.Some?
    ensures r.File? ==> r.path == cmd.outputFile.value
    ensures r == DevNull <==> cmd.outputFile.None? && EffectiveBackground(cmd.runInBackground, foregroundOnly)
  {
    match cmd.outputFile
    case Some(path) => File(path)
    case None => if EffectiveBackground(cmd.runInBackground, foregroundOnly) then DevNull else Inherit
  }

  /** What open() and dup2() did for one redirection. */
  datatype Redirection = Redirected | OpenFailed | Dup2Failed

  /** The line input_redirect prints before exit(1), or None when stdin is set up (or left alone). */
  function InputFailure(target: Stream, result: Redirection): (r: Option<seq<char>>)
    ensures r.Some? <==> target != Inherit && result != Redirected
  {
    if target == Inherit || result == Redirected then None
    else match target
      case File(path) =>
        if result == OpenFailed then Some("cannot open " + path + " for input\n")
        else Some("error redirecting stdin to input file\n")
      case DevNull =>
        if result == OpenFailed then Some("cannot open /dev/null for input\n")
        else Some("error redirecting stdin to /dev/null\n")
  }

  /** The line output_redirect prints before exit(1), or None when stdout is set up (or left alone). */
  function OutputFailure(target: Stream, result: Redirection): (r: Option<seq<char>>)
    ensures r.Some? <==> target != Inherit && result != Redirected
  {
    if target == Inherit || result == Redirected then None
    else match target
      case File(path) =>
        if result == OpenFailed then Some("cannot open " + path + " for output\n")
        else Some("error redirecting stdout to output file\n")
      case DevNull =>
        if result == OpenFailed then Some("cannot open /dev/null for output\n")
        else Some("error redirecting stdout to /dev/null\n")
  }

  /** The condition main.c tests before restore_SIGINT in the child, as written: `!bg || !fo`. */
  predicate RestoresSigintAsWritten(runInBackground: bool, foregroundOnly: bool) {
    !runInBackground || !foregroundOnly
  }

  /** The condition its comment describes: restore SIGINT exactly in a child that runs in the foreground. */
  predicate RestoresSigint(runInBackground: bool, foregroundOnly: bool) {
    !EffectiveBackground(runInBackground, foregroundOnly)
  }

  /**
   * The two conditions disagree whenever `&` was given: a real background
   * child gets SIGINT back, and a `&` command run in the foreground under
   * foreground-only mode keeps ignoring it.
   */
  lemma SigintConditionAsWrittenDiffers(runInBackground: bool, foregroundOnly: bool)
    ensures RestoresSigintAsWritten(runInBackground, foregroundOnly) != RestoresSigint(runInBackground, foregroundOnly)
            <==> runInBackground
    ensures RestoresSigintAsWritten(true, false) && !RestoresSigint(true, false)
    ensures !RestoresSigintAsWritten(true, true) && RestoresSigint(true, true)
  {
  }

  /** How the forked child ends, with SIGTSTP always ignored in it. */
  datatype ChildEnd =
    | Runs(program: seq<char>, argv: seq<seq<char>>, stdin: Stream, stdout: Stream, sigintDefault: bool)
    | RedirectFailed(message: seq<char>)
    | ExecFailed(program: seq<char>)

  /** How waitpid sees a child that never reached its program: exit(1) after either failure. */
  function ChildOutcome(end: ChildEnd): Option<WaitOutcome> {
    if end.Runs? then None else Some(Exited(1))
  }

  /**
   * The child side of fork_child: SIGINT restored (the corrected condition),
   * stdin redirected, then stdout, then execvp(args[0], args). A failed
   * redirection prints its line and exits; a failed execvp reports the
   * program name (perror, on stderr) and exits.
   */
  function RunChild(cmd: CommandLine, foregroundOnly: bool, inputResult: Redirection,
                    outputResult: Redirection, execSucceeds: bool): (end: ChildEnd)
    requires |cmd.args| >= 1
    ensures end.Runs? <==>
              InputFailure(InputTarget(cmd, foregroundOnly), inputResult).None?
              && OutputFailure(OutputTarget(cmd, foregroundOnly), outputResult).None?
              && execSucceeds
    ensures end.Runs? ==> end.program == cmd.args[0] && end.argv == cmd.args
                          && end.stdin == InputTarget(cmd, foregroundOnly)
                          && end.stdout == OutputTarget(cmd, foregroundOnly)
                          && end.sigintDefault == RestoresSigint(cmd.runInBackground, foregroundOnly)
    ensures InputFailure(InputTarget(cmd, foregroundOnly), inputResult).Some?
            ==> end == RedirectFailed(InputFailure(InputTarget(cmd, foregroundOnly), inputResult).value)
    ensures InputFailure(InputTarget(cmd, foregroundOnly), inputResult).None?
            && OutputFailure(OutputTarget(cmd, foregroundOnly), outputResult).Some?
            ==> end == RedirectFailed(OutputFailure(OutputTarget(cmd, foregroundOnly), outputResult).value)
    ensures InputFailure(InputTarget(cmd, foregroundOnly), inputResult).None?
            && OutputFailure(OutputTarget(cmd, foregroundOnly), outputResult).None?
            && !execSucceeds
            ==> end == ExecFailed(cmd.args[0])
  {
    var stdin := InputTarget(cmd, foregroundOnly);
    var stdout := OutputTarget(cmd, foregroundOnly);
    match InputFailure(stdin, inputResult)
    case Some(message) => RedirectFailed(message)
    case None =>
      match OutputFailure(stdout, outputResult)
      case Some(message) => RedirectFailed(message)
      case None =>
        if execSucceeds then Runs(cmd.args[0], cmd.args, stdin, stdout, RestoresSigint(cmd.runInBackground, foregroundOnly))
        else ExecFailed(cmd.args[0])
  }

  /**
   * A stream the command does not redirect goes to /dev/null exactly when
   * the command runs in the background, and is inherited otherwise; a
   * named file always wins.
   */
  lemma DefaultStreamsFollowBackground(cmd: CommandLine, foregroundOnly: bool)
    ensures cmd.inputFile.Some? ==> InputTarget(cmd, foregroundOnly) == File(cmd.inputFile.value)
    ensures cmd.outputFile.Some? ==> OutputTarget(cmd, foregroundOnly) == File(cmd.outputFile.value)
    ensures cmd.inputFile.None? ==>
              (InputTarget(cmd, foregroundOnly) == DevNull <==> EffectiveBackground(cmd.runInBackground, foregroundOnly))
    ensures cmd.outputFile.None? ==>
              (OutputTarget(cmd, foregroundOnly) == DevNull <==> EffectiveBackground(cmd.runInBackground, foregroundOnly))
    ensures InputTarget(cmd, foregroundOnly) == Inherit
            <==> cmd.inputFile.None? && !EffectiveBackground(cmd.runInBackground, foregroundOnly)
    ensures OutputTarget(cmd, foregroundOnly) == Inherit
            <==> cmd.outputFile.None? && !EffectiveBackground(cmd.runInBackground, foregroundOnly)
  {
  }

  /** In foreground-only mode nothing is sent to /dev/null by default, whatever `&` says. */
  lemma ForegroundOnlyKeepsTerminal(cmd: CommandLine)
    ensures InputTarget(cmd, true) != DevNull && OutputTarget(cmd, true) != DevNull
    ensures InputTarget(cmd, true) == InputTarget(cmd.(runInBackground := false), false)
    ensures OutputTarget(cmd, true) == OutputTarget(cmd.(runInBackground := false), false)
  {
  }

  /** What a foreground wait leaves in `status`: the exit code, or the signal number. */
  function StatusAfterWait(outcome: WaitOutcome): (status: int)
    ensures status >= 0
    ensures outcome.Exited? ==> status == outcome.code
    ensures outcome.Signaled? ==> status == outcome.signal
  {
    match outcome
    case Exited(code) => code
    case Signaled(signal) => signal
  }

  /** What fork_child prints after a foreground wait: nothing for an exit, the signal for a kill. */
  function WaitReport(outcome: WaitOutcome): (text: seq<char>)
    ensures text == [] <==> outcome.Exited?
    ensures text != [] ==> text[|text| - 1] == '\n'
  {
    match outcome
    case Exited(_) => ""
    case Signaled(signal) => "terminated by signal " + FormatInt(signal) + "\n"
  }

  /** display_status: "exit value N" for 0 and 1, "terminated by signal N" for anything else. */
  function DisplayStatus(status: int): (text: seq<char>)
    ensures |text| >= 1 && text[|text| - 1] == '\n'
  {
    if status == 0 || status == 1 then "exit value " + FormatInt(status) + "\n"
    else "terminated by signal " + FormatInt(status) + "\n"
  }

  /** After a child is killed by signal s >= 2, `status` repeats the line fork_child printed. */
  lemma StatusRepeatsSignalReport(signal: nat)
    requires signal >= 2
    ensures DisplayStatus(StatusAfterWait(Signaled(signal))) == WaitReport(Signaled(signal))
  {
  }

  /** After a child exits with 0 or 1, `status` shows "exit value" and that code. */
  lemma StatusShowsExitValue(code: nat)
    requires code <= 1
    ensures DisplayStatus(StatusAfterWait(Exited(code))) == "exit value " + FormatInt(code) + "\n"
    ensures WaitReport(Exited(code)) == ""
  {
  }

  /**
   * `status` keeps only a number, so it cannot tell an exit code from a
   * signal of the same number: an exit code c >= 2 is shown as a signal,
   * and signal 1 as "exit value 1".
   */
  lemma StatusConflatesExitAndSignal(n: nat)
    ensures DisplayStatus(StatusAfterWait(Exited(n))) == DisplayStatus(StatusAfterWait(Signaled(n)))
    ensures n >= 2 ==> DisplayStatus(StatusAfterWait(Exited(n))) == "terminated by signal " + FormatInt(n) + "\n"
  {
  }

  /**
   * A child that fails to redirect or to exec ends with exit(1), after
   * printing its redirection line or the perror for its program. Only then
   * does the shell fix the outcome; otherwise the program decides it. A
   * foreground wait prints nothing for that exit, and the next `status`
   * shows "exit value 1", just as for a program that itself exits with 1.
   */
  lemma FailedLaunchShowsExitValueOne(cmd: CommandLine, foregroundOnly: bool, inputResult: Redirection,
                                      outputResult: Redirection, execSucceeds: bool)
    requires |cmd.args| >= 1
    ensures var end := RunChild(cmd, foregroundOnly, inputResult, outputResult, execSucceeds);
      && (ChildOutcome(end).None? <==> end.Runs?)
      && (!end.Runs? ==>
            ChildOutcome(end) == Some(Exited(1))
            && WaitReport(ChildOutcome(end).value) == ""
            && DisplayStatus(StatusAfterWait(ChildOutcome(end).value)) == "exit value 1\n")
  {
    assert DecimalString(1) == "1";
  }

  /**
   * A reaped background child is described in the words `status` would use
   * for the same outcome of a foreground child, wherever `status` can tell
   * the two kinds apart (an exit with 0 or 1, a signal from 2 on).
   */
  lemma DoneMessageAgreesWithStatus(pid: int, outcome: WaitOutcome)
    requires outcome.Exited? ==> outcome.code <= 1
    requires outcome.Signaled? ==> outcome.signal >= 2
    ensures DoneMessage(pid, outcome)
         == "background pid " + FormatInt(pid) + " is done: " + DisplayStatus(StatusAfterWait(outcome))
  {
  }

  /** Distinct statuses are displayed differently: the line determines the number. */
  lemma DisplayStatusInjective(m: int, n: int)
    requires DisplayStatus(m) == DisplayStatus(n)
    ensures m == n
  {
    var exitPrefix := "exit value ";
    var signalPrefix := "terminated by signal ";
    assert DisplayStatus(m)[0] == DisplayStatus(n)[0];
    if m == 0 || m == 1 {
      assert n == 0 || n == 1;
      StripAffixes(exitPrefix, FormatInt(m), FormatInt(n));
    } else {
      assert n != 0 && n != 1;
      StripAffixes(signalPrefix, FormatInt(m), FormatInt(n));
    }
    FormatIntInjective(m, n);
  }

  lemma StripAffixes(prefix: seq<char>, a: seq<char>, b: seq<char>)
    requires prefix + a + "\n" == prefix + b + "\n"
    ensures a == b
  {
    var x := prefix + a + "\n";
    var y := prefix + b + "\n";
    assert |a| == |b|;
    forall j | 0 <= j < |a| ensures a[j] == b[j] {
      assert x[|prefix| + j] == a[j];
      assert y[|prefix| + j] == b[j];
    }
  }
}
