/**
 * main's read loop over the lines getline returns, in order: before every
 * read the job table is polled; a line whose first character is white
 * space or '#' is skipped; the exact line "exit\n" ends the loop (it is
 * compared before any expansion); every other line is expanded, parsed and
 * handled.
 */
module MainLoop {

  /** isspace in the C locale. */
  predicate IsSpace(c: char) {
    c == ' ' || c == '\t' || c == '\n' || c == '\U{B}' || c == '\U{C}' || c == '\r'
  }

  datatype LineKind = Skip | Exit | Command

  /** How the two loop conditions of main see a raw line. */
  function Classify(line: seq<char>): (r: LineKind)
    requires |line| >= 1
    ensures r == Skip <==> IsSpace(line[0]) || line[0] == '#'
    ensures r == Exit <==> line == "exit\n"
  {
    if IsSpace(line[0]) || line[0] == '#' then Skip
    else if line == "exit\n" then Exit
    else Command
  }

  /** Classification looks at the first character and at the exact exit line only. */
  lemma ClassifyExamples()
    ensures Classify("\n") == Skip && Classify("# exit\n") == Skip
    ensures Classify(" ls\n") == Skip && Classify("\tls\n") == Skip
    ensures Classify("exit\n") == Exit
    ensures Classify("exit \n") == Command && Classify("exit") == Command && Classify("exit now\n") == Command
    ensures Classify("ls -la\n") == Command
  {
    assert "exit \n" != "exit\n" by { assert |"exit \n"| != |"exit\n"|; }
    assert "exit" != "exit\n" by { assert |"exit"| != |"exit\n"|; }
    assert "exit now\n" != "exit\n" by { assert |"exit now\n"| != |"exit\n"|; }
  }

  predicate NonEmptyLines(lines: seq<seq<char>>) {
    forall j :: 0 <= j < |lines| ==> |lines[j]| >= 1
  }

  /** The position of the first "exit\n" line, or |lines| when there is none. */
  function ExitIndex(lines: seq<seq<char>>): (r: nat)
    ensures r <= |lines|
    ensures forall j :: 0 <= j < r ==> lines[j] != "exit\n"
    ensures r < |lines| ==> lines[r] == "exit\n"
    ensures "exit\n" in lines ==> r < |lines|
  {
    if lines == [] then 0
    else if lines[0] == "exit\n" then 0
    else 1 + ExitIndex(lines[1..])
  }

  /** The lines of `lines` that are commands, in order. */
  function Commands(lines: seq<seq<char>>): seq<seq<char>>
    requires NonEmptyLines(lines)
  {
    if lines == [] then []
    else
      var last := lines[|lines| - 1];
      Commands(lines[..|lines| - 1]) + (if Classify(last) == Command then [last] else [])
  }

  /** The loop read line by line: skip, stop at the first exit line, hand on the rest. */
  function Handled(lines: seq<seq<char>>): seq<seq<char>>
    requires NonEmptyLines(lines)
  {
    if lines == [] then []
    else match Classify(lines[0])
      case Skip => Handled(lines[1..])
      case Exit => []
      case Command => [lines[0]] + Handled(lines[1..])
  }

  /** The commands handled are the command lines before the first exit line, in order. */
  lemma {:induction false} HandledBeforeExit(lines: seq<seq<char>>)
    requires NonEmptyLines(lines)
    ensures Handled(lines) == Commands(lines[..ExitIndex(lines)])
    decreases |lines|
  {
    if lines != [] && lines[0] != "exit\n" {
      var rest := lines[1..];
      HandledBeforeExit(rest);
      CommandsCons(lines[0], rest[..ExitIndex(rest)]);
      assert lines[..ExitIndex(lines)] == [lines[0]] + rest[..ExitIndex(rest)];
    } else if lines != [] {
      assert lines[..ExitIndex(lines)] == [];
    }
  }

  lemma {:induction false} CommandsCons(line: seq<char>, lines: seq<seq<char>>)
    requires |line| >= 1 && NonEmptyLines(lines)
    ensures NonEmptyLines([line] + lines)
    ensures Commands([line] + lines) == (if Classify(line) == Command then [line] else []) + Commands(lines)
    decreases |lines|
  {
    var all := [line] + lines;
    if lines != [] {
      var init := lines[..|lines| - 1];
      assert all[..|all| - 1] == [line] + init;
      CommandsCons(line, init);
    } else {
      assert all[..0] == [];
    }
  }

  lemma CommandsPrefixStep(lines: seq<seq<char>>, i: nat)
    requires NonEmptyLines(lines) && 1 <= i <= |lines|
    ensures Commands(lines[..i]) == Commands(lines[..i - 1]) + (if Classify(lines[i - 1]) == Command then [lines[i - 1]] else [])
  {
    assert lines[..i][..i - 1] == lines[..i - 1];
  }

  /** Nothing after the first exit line is ever read, let alone handled. */
  lemma LinesAfterExitIgnored(lines: seq<seq<char>>, later: seq<seq<char>>)
    requires NonEmptyLines(lines) && NonEmptyLines(later) && "exit\n" in lines
    ensures NonEmptyLines(lines + later)
    ensures Handled(lines + later) == Handled(lines)
  {
    HandledBeforeExit(lines);
    HandledBeforeExit(lines + later);
    ExitIndexAppend(lines, later);
    assert (lines + later)[..ExitIndex(lines)] == lines[..ExitIndex(lines)];
  }

  lemma {:induction false} ExitIndexAppend(lines: seq<seq<char>>, later: seq<seq<char>>)
    requires "exit\n" in lines
    ensures ExitIndex(lines + later) == ExitIndex(lines)
    decreases |lines|
  {
    assert (lines + later)[0] == lines[0];
    if lines[0] != "exit\n" {
      assert (lines + later)[1..] == lines[1..] + later;
      ExitIndexAppend(lines[1..], later);
    }
  }

  /**
   * main's two nested do/while loops over the lines read. Each read is
   * preceded by one poll of the job table. Returns the lines handed to
   * variable expansion, how many lines were read, and how many polls ran.
   */
  method ReadLoop(lines: seq<seq<char>>) returns (handled: seq<seq<char>>, consumed: nat, polls: nat)
    requires NonEmptyLines(lines) && "exit\n" in lines
    ensures handled == Handled(lines)
    ensures consumed == ExitIndex(lines) + 1 && polls == consumed
  {
    var last := ExitIndex(lines);
    handled := [];
    consumed := 0;
    polls := 0;
    var line: seq<char> := "";
    var done := false;
    while !done
      invariant consumed <= last + 1 && polls == consumed
      invariant !done ==> consumed <= last && handled == Commands(lines[..consumed])
      invariant done ==> consumed == last + 1 && handled == Commands(lines[..last])
      decreases last + 1 - consumed, !done
    {
      polls := polls + 1;
      line := lines[consumed];
      consumed := consumed + 1;
      while IsSpace(line[0]) || line[0] == '#'
        invariant 1 <= consumed <= last + 1 && polls == consumed
        invariant line == lines[consumed - 1]
        invariant handled == Commands(lines[..consumed - 1])
        decreases last + 1 - consumed
      {
        CommandsPrefixStep(lines, consumed);
        polls := polls + 1;
        line := lines[consumed];
        consumed := consumed + 1;
      }
      CommandsPrefixStep(lines, consumed);
      if line != "exit\n" {
        handled := handled + [line];
      } else {
        done := true;
      }
    }
    HandledBeforeExit(lines);
  }
}
