/**
 * The state main() keeps across commands: the last foreground status, the
 * foreground-only flag that handle_SIGTSTP flips, and the background job
 * table (a 100-slot array and its count). Each operation that changes them
 * in the C program is a method of `Shell`; the built-in dispatch of
 * handle_command_line is the function `Dispatch`.
 */
module Shell {

  import opened Wrappers
  import opened Decimal
  import opened Parser
  import opened Jobs
  import opened Launch
  import opened Sigtstp

  /** What handle_command_line does with a parsed command. */
  datatype Action =
    | ChangeDirectory(target: Option<seq<char>>)  // cd: chdir to the target (NULL when HOME is unset)
    | ShowStatus                                  // status
    | Fork                                        // anything else goes to fork_child

  /** `cd` alone goes to HOME, `cd dir …` to its first argument; `status` reports; everything else is forked. */
  function Dispatch(cmd: CommandLine, home: Option<seq<char>>): (r: Action)
    requires |cmd.args| >= 1
    ensures r.ChangeDirectory? <==> cmd.command == "cd"
    ensures r == ShowStatus <==> cmd.command == "status"
    ensures r.ChangeDirectory? && |cmd.args| == 1 ==> r.target == home
    ensures r.ChangeDirectory? && |cmd.args| > 1 ==> r.target == Some(cmd.args[1])
  {
    if cmd.command == "cd" then
      if |cmd.args| == 1 then ChangeDirectory(home) else ChangeDirectory(Some(cmd.args[1]))
    else if cmd.command == "status" then ShowStatus
    else Fork
  }

  /** change_dir's only output: a line when chdir fails (chdir(NULL) fails too). */
  function ChangeDirReport(target: Option<seq<char>>, chdirSucceeds: bool): (r: seq<char>)
    ensures r == [] <==> target.Some? && chdirSucceeds
    ensures r != [] ==> r == "Error changing directories.\n"
  {
    if target.Some? && chdirSucceeds then "" else "Error changing directories.\n"
  }

  /**
   * The built-ins are recognised by the command word alone. A trailing `&`
   * is gone before the arguments are counted, so `cd &` goes HOME.
   */
  lemma DispatchCdGoesHome(home: Option<seq<char>>)
    ensures Dispatch(ParseTokens(["cd"]), home) == ChangeDirectory(home)
    ensures Dispatch(ParseTokens(["cd", "&"]), home) == ChangeDirectory(home)
  {
    assert ["cd"][1..] == [] && ["cd", "&"][1..] == ["&"];
    assert Scan(["&"]) == Scanned(["&"], None, None) by {
      assert ["&"][1..] == [];
    }
  }

  /** `cd` with several arguments takes the first. */
  lemma DispatchCdTakesFirstArgument(home: Option<seq<char>>)
    ensures Dispatch(ParseTokens(["cd", "/tmp", "x"]), home) == ChangeDirectory(Some("/tmp"))
  {
    assert ["cd", "/tmp", "x"][1..] == ["/tmp", "x"];
    assert Scan(["/tmp", "x"]).args == ["/tmp", "x"] by {
      assert ["/tmp", "x"][1..] == ["x"];
      assert ["x"][1..] == [];
    }
  }

  /** Arguments after `status` are ignored; anything else is forked. */
  lemma DispatchStatusAndOthers(home: Option<seq<char>>)
    ensures Dispatch(ParseTokens(["status", "now"]), home) == ShowStatus
    ensures Dispatch(ParseTokens(["ls", "-l"]), home) == Fork
  {
    assert ["status", "now"][1..] == ["now"] && ["ls", "-l"][1..] == ["-l"];
    assert Scan(["now"]).args == ["now"] by {
      assert ["now"][1..] == [];
    }
    assert Scan(["-l"]).args == ["-l"] by {
      assert ["-l"][1..] == [];
    }
  }

  /** A command that is not a built-in is forked; the two built-ins never are. */
  lemma DispatchForksExactlyOthers(cmd: CommandLine, home: Option<seq<char>>)
    requires |cmd.args| >= 1
    ensures Dispatch(cmd, home) == Fork <==> cmd.command != "cd" && cmd.command != "status"
    ensures Dispatch(cmd, home).ChangeDirectory? && |cmd.args| > 1 ==> Dispatch(cmd, home).target == Some(cmd.args[1])
  {
  }

  class Shell {
    /** The last foreground status (main's `status`). */
    var status: int
    /** The global `foreground_only`. */
    var foregroundOnly: bool
    /** The background PID array allocated by calloc(100, sizeof(int)). */
    const jobs: array<int>
    /** bg_proc_count: live entries sit in jobs[..jobCount]. */
    var jobCount: nat

    /** The table holds positive, distinct pids of children not yet reaped. */
    ghost predicate Valid()
      reads this, jobs
    {
      jobs.Length == JOB_CAPACITY && jobCount <= jobs.Length
      && Distinct(jobs[..jobCount]) && AllPositive(jobs[..jobCount])
    }

    /** The live part of the job table. */
    ghost function Jobs(): seq<int>
      reads this, jobs
      requires jobCount <= jobs.Length
    {
      jobs[..jobCount]
    }

    /** main's set-up: status 0, foreground-only off, a zeroed empty table. */
    constructor ()
      ensures Valid() && fresh(jobs)
      ensures status == 0 && !foregroundOnly && Jobs() == []
      ensures forall j :: 0 <= j < jobs.Length ==> jobs[j] == 0
    {
      status := 0;
      foregroundOnly := false;
      jobs := new int[JOB_CAPACITY](_ => 0);
      jobCount := 0;
    }

    /** One poll of the job table, as main does before every prompt; status and the mode are left alone. */
    method ReapFinished(finished: map<int, WaitOutcome>) returns (reaped: seq<int>, output: seq<char>)
      requires Valid()
      modifies jobs, this
      ensures Valid()
      ensures Jobs() == Unfinished(old(Jobs()), finished)
      ensures reaped == Finished(old(Jobs()), finished)
      ensures output == DoneMessages(old(Jobs()), finished)
      ensures jobCount == old(jobCount) - |reaped|
      ensures HoldsOnly(jobs[..], jobCount, old(jobCount), old(Jobs()))
      ensures jobs[old(jobCount)..] == old(jobs[jobCount..])
      ensures status == old(status) && foregroundOnly == old(foregroundOnly)
    {
      ghost var before := Jobs();
      jobCount, reaped, output := CheckBackgroundProcs(jobs, jobCount, finished);
      UnfinishedDistinct(before, finished);
      UnfinishedPositive(before, finished);
    }

    /**
     * The parent side of fork_child after fork() returned `spawnPid` (-1 on
     * failure). A background command is appended to the table first, with
     * no bound check and even when fork failed; perror() and exit(1) then
     * end the shell. Otherwise the parent announces a background child, or
     * waits for a foreground one (`outcome`) and records its status, naming
     * the signal that killed it.
     */
    method ForkChild(cmd: CommandLine, spawnPid: int, outcome: WaitOutcome) returns (output: seq<char>, shellExits: bool)
      requires Valid()
      requires spawnPid == -1 || (spawnPid > 0 && spawnPid !in Jobs())
      requires EffectiveBackground(cmd.runInBackground, foregroundOnly) ==> jobCount < JOB_CAPACITY
      modifies this, jobs
      ensures foregroundOnly == old(foregroundOnly)
      ensures EffectiveBackground(cmd.runInBackground, foregroundOnly) ==>
                jobCount == old(jobCount) + 1 && jobs[..] == old(jobs[..])[old(jobCount) := spawnPid]
      ensures !EffectiveBackground(cmd.runInBackground, foregroundOnly) ==>
                jobCount == old(jobCount) && jobs[..] == old(jobs[..])
      ensures shellExits <==> spawnPid == -1
      ensures !shellExits ==> Valid()
      ensures shellExits ==> output == [] && status == old(status)
      ensures !shellExits && EffectiveBackground(cmd.runInBackground, foregroundOnly) ==>
                output == "background PID is " + FormatInt(spawnPid) + "\n" && status == old(status)
      ensures !shellExits && !EffectiveBackground(cmd.runInBackground, foregroundOnly) ==>
                output == WaitReport(outcome) && status == StatusAfterWait(outcome)
    {
      ghost var before := Jobs();
      if cmd.runInBackground && !foregroundOnly {
        jobs[jobCount] := spawnPid;
        jobCount := jobCount + 1;
        assert Jobs() == before + [spawnPid];
      }
      output := [];
      if spawnPid == -1 {
        shellExits := true;
      } else {
        shellExits := false;
        if cmd.runInBackground && !foregroundOnly {
          output := "background PID is " + FormatInt(spawnPid) + "\n";
        } else {
          match outcome
          case Exited(code) =>
            status := code;
          case Signaled(signal) =>
            output := "terminated by signal " + FormatInt(signal) + "\n";
            status := signal;
        }
      }
    }

    /** handle_SIGTSTP run to completion between two commands: flip the mode and write the matching message, without its NUL. */
    method HandleSigtstp() returns (written: seq<char>)
      requires Valid()
      modifies this
      ensures Valid()
      ensures foregroundOnly == Toggle(old(foregroundOnly)).foregroundOnly
      ensures written == Toggle(old(foregroundOnly)).written
      ensures status == old(status) && jobCount == old(jobCount)
    {
      if foregroundOnly {
        written := Write(Stored(EXITING_MESSAGE), |EXITING_MESSAGE|);
        foregroundOnly := false;
      } else {
        written := Write(Stored(ENTERING_MESSAGE), |ENTERING_MESSAGE|);
        foregroundOnly := true;
      }
    }

    /**
     * handle_command_line: run `cd` or `status` in the shell, or append the
     * NULL terminator to the argument list (which needs a free slot of the
     * 512) and fork. `home` is getenv("HOME"); `chdirSucceeds`, `spawnPid`
     * and `outcome` are what chdir, fork and waitpid report.
     */
    method HandleCommandLine(cmd: CommandLine, home: Option<seq<char>>, chdirSucceeds: bool,
                             spawnPid: int, outcome: WaitOutcome) returns (output: seq<char>, shellExits: bool)
      requires Valid() && |cmd.args| >= 1
      requires Dispatch(cmd, home) == Fork ==>
                 |cmd.args| < MAX_ARGS
                 && (spawnPid == -1 || (spawnPid > 0 && spawnPid !in Jobs()))
                 && (EffectiveBackground(cmd.runInBackground, foregroundOnly) ==> jobCount < JOB_CAPACITY)
      modifies this, jobs
      ensures foregroundOnly == old(foregroundOnly)
      ensures !shellExits ==> Valid()
      ensures Dispatch(cmd, home).ChangeDirectory? ==>
                output == ChangeDirReport(Dispatch(cmd, home).target, chdirSucceeds) && !shellExits
                && status == old(status) && jobCount == old(jobCount) && jobs[..] == old(jobs[..])
      ensures Dispatch(cmd, home) == ShowStatus ==>
                output == DisplayStatus(old(status)) && !shellExits
                && status == old(status) && jobCount == old(jobCount) && jobs[..] == old(jobs[..])
      ensures Dispatch(cmd, home) == Fork && EffectiveBackground(cmd.runInBackground, foregroundOnly) ==>
                jobCount == old(jobCount) + 1 && jobs[..] == old(jobs[..])[old(jobCount) := spawnPid]
      ensures Dispatch(cmd, home) == Fork && !EffectiveBackground(cmd.runInBackground, foregroundOnly) ==>
                jobCount == old(jobCount) && jobs[..] == old(jobs[..])
      ensures Dispatch(cmd, home) == Fork ==> (shellExits <==> spawnPid == -1)
      ensures Dispatch(cmd, home) == Fork && !shellExits && !EffectiveBackground(cmd.runInBackground, foregroundOnly) ==>
                status == StatusAfterWait(outcome) && output == WaitReport(outcome)
      ensures Dispatch(cmd, home) == Fork && !shellExits && EffectiveBackground(cmd.runInBackground, foregroundOnly) ==>
                status == old(status) && output == "background PID is " + FormatInt(spawnPid) + "\n"
    {
      match Dispatch(cmd, home)
      case ChangeDirectory(target) =>
        output := ChangeDirReport(target, chdirSucceeds);
        shellExits := false;
      case ShowStatus =>
        output := DisplayStatus(status);
        shellExits := false;
      case Fork =>
        output, shellExits := ForkChild(cmd, spawnPid, outcome);
    }
  }
}
