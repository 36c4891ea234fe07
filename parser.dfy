/**
 * parse_command_line: the expanded line is cut into tokens by
 * strtok_r(…, " ", …); the first token is the command and args[0]; an exact
 * `<` or `>` token takes the following token as the input or output file;
 * every other token is appended to the argument list, which has 512 slots; a
 * final `&` argument (when there are at least two) marks the command as a
 * background command and is removed.
 */
module Parser {

  import opened Wrappers

  /** Slots of the argument array parse_command_line allocates. */
  const MAX_ARGS := 512

  /** The parsed command line (struct command_line). */
  datatype CommandLine = CommandLine(
    command: seq<char>,
    args: seq<seq<char>>,
    inputFile: Option<seq<char>>,
    outputFile: Option<seq<char>>,
    runInBackground: bool)

  /** First position at or after `pos` that is not a space. */
  function SkipSpaces(s: seq<char>, pos: nat): (r: nat)
    requires pos <= |s|
    ensures pos <= r <= |s|
    ensures r < |s| ==> s[r] != ' '
    decreases |s| - pos
  {
    if pos == |s| || s[pos] != ' ' then pos else SkipSpaces(s, pos + 1)
  }

  /** First position at or after `pos` that is a space, or the end. */
  function TokenEnd(s: seq<char>, pos: nat): (r: nat)
    requires pos <= |s|
    ensures pos <= r <= |s|
    ensures r < |s| ==> s[r] == ' '
    decreases |s| - pos
  {
    if pos == |s| || s[pos] == ' ' then pos else TokenEnd(s, pos + 1)
  }

  /** Only spaces lie between `pos` and SkipSpaces(s, pos). */
  lemma {:induction false} SkippedAreSpaces(s: seq<char>, pos: nat)
    requires pos <= |s|
    ensures forall k :: pos <= k < SkipSpaces(s, pos) ==> s[k] == ' '
    ensures WithoutSpaces(s[pos..]) == WithoutSpaces(s[SkipSpaces(s, pos)..])
    decreases |s| - pos
  {
    if pos < |s| && s[pos] == ' ' {
      SkippedAreSpaces(s, pos + 1);
      assert s[pos..][1..] == s[pos + 1..];
    }
  }

  /** No space lies between `pos` and TokenEnd(s, pos). */
  lemma {:induction false} TokenHasNoSpace(s: seq<char>, pos: nat)
    requires pos <= |s|
    ensures forall k :: pos <= k < TokenEnd(s, pos) ==> s[k] != ' '
    ensures WithoutSpaces(s[pos..]) == s[pos..TokenEnd(s, pos)] + WithoutSpaces(s[TokenEnd(s, pos)..])
    decreases |s| - pos
  {
    if pos < |s| && s[pos] != ' ' {
      TokenHasNoSpace(s, pos + 1);
      assert s[pos..][1..] == s[pos + 1..];
      assert s[pos..TokenEnd(s, pos)] == [s[pos]] + s[pos + 1..TokenEnd(s, pos)];
    }
  }

  /** A token and the position strtok_r saves for the next call. */
  datatype Token = Token(text: seq<char>, next: nat)

  /**
   * One call of strtok_r with delimiter " " and save position `pos`: skip
   * spaces; at the end there is no token; otherwise the token runs to the
   * next space, which is consumed.
   */
  function NextToken(s: seq<char>, pos: nat): (r: Option<Token>)
    requires pos <= |s|
    ensures r.Some? ==> pos < r.value.next <= |s|
  {
    var start := SkipSpaces(s, pos);
    if start == |s| then None
    else
      var end := TokenEnd(s, start);
      Some(Token(s[start..end], if end < |s| then end + 1 else end))
  }

  /** strtok_r finds no token exactly when only spaces are left, and never returns an empty token or one with a space. */
  lemma NextTokenShape(s: seq<char>, pos: nat)
    requires pos <= |s|
    ensures NextToken(s, pos).None? <==> forall k :: pos <= k < |s| ==> s[k] == ' '
    ensures NextToken(s, pos).Some? ==> |NextToken(s, pos).value.text| >= 1 && ' ' !in NextToken(s, pos).value.text
  {
    var start := SkipSpaces(s, pos);
    SkippedAreSpaces(s, pos);
    if start < |s| {
      var end := TokenEnd(s, start);
      TokenHasNoSpace(s, start);
      var text := s[start..end];
      forall i | 0 <= i < |text| ensures text[i] != ' ' {
        assert text[i] == s[start + i];
      }
    }
  }

  /** All tokens strtok_r returns from save position `pos` on. */
  function TokensFrom(s: seq<char>, pos: nat): seq<seq<char>>
    requires pos <= |s|
    decreases |s| - pos
  {
    match NextToken(s, pos)
    case None => []
    case Some(t) => [t.text] + TokensFrom(s, t.next)
  }

  function Tokens(s: seq<char>): seq<seq<char>> {
    TokensFrom(s, 0)
  }

  function Flatten(ts: seq<seq<char>>): seq<char> {
    if ts == [] then [] else ts[0] + Flatten(ts[1..])
  }

  /** `s` with every space removed. */
  function WithoutSpaces(s: seq<char>): seq<char> {
    if s == [] then [] else (if s[0] == ' ' then [] else [s[0]]) + WithoutSpaces(s[1..])
  }

  lemma {:induction false} WithoutSpacesAppend(a: seq<char>, b: seq<char>)
    ensures WithoutSpaces(a + b) == WithoutSpaces(a) + WithoutSpaces(b)
    decreases |a|
  {
    if a == [] {
      assert a + b == b;
    } else {
      assert (a + b)[0] == a[0];
      assert (a + b)[1..] == a[1..] + b;
      WithoutSpacesAppend(a[1..], b);
    }
  }

  /** The text one strtok_r call passes over, without its spaces, is the token. */
  lemma NextTokenText(s: seq<char>, pos: nat)
    requires pos <= |s|
    ensures NextToken(s, pos).None? ==> WithoutSpaces(s[pos..]) == []
    ensures NextToken(s, pos).Some? ==>
              WithoutSpaces(s[pos..]) == NextToken(s, pos).value.text + WithoutSpaces(s[NextToken(s, pos).value.next..])
  {
    var start := SkipSpaces(s, pos);
    SkippedAreSpaces(s, pos);
    if start < |s| {
      var end := TokenEnd(s, start);
      TokenHasNoSpace(s, start);
      var next := if end < |s| then end + 1 else end;
      assert NextToken(s, pos) == Some(Token(s[start..end], next));
      if end < |s| {
        SpaceDropped(s, end);
      }
      assert WithoutSpaces(s[end..]) == WithoutSpaces(s[next..]);
    } else {
      assert s[start..] == [];
    }
  }

  /** A space contributes nothing to WithoutSpaces. */
  lemma SpaceDropped(s: seq<char>, i: nat)
    requires i < |s| && s[i] == ' '
    ensures WithoutSpaces(s[i..]) == WithoutSpaces(s[i + 1..])
  {
    assert s[i..][1..] == s[i + 1..];
  }

  /**
   * Tokenizing loses nothing but spaces: the tokens, concatenated, are the
   * text with its spaces removed, and no token is empty or holds a space.
   */
  lemma {:induction false} TokensCoverText(s: seq<char>, pos: nat)
    requires pos <= |s|
    ensures Flatten(TokensFrom(s, pos)) == WithoutSpaces(s[pos..])
    ensures forall i :: 0 <= i < |TokensFrom(s, pos)| ==>
              |TokensFrom(s, pos)[i]| >= 1 && ' ' !in TokensFrom(s, pos)[i]
    decreases |s| - pos
  {
    NextTokenText(s, pos);
    NextTokenShape(s, pos);
    var t := NextToken(s, pos);
    if t.Some? {
      TokensCoverText(s, t.value.next);
      var ts := TokensFrom(s, pos);
      assert ts == [t.value.text] + TokensFrom(s, t.value.next);
      assert ts[1..] == TokensFrom(s, t.value.next);
    }
  }

  predicate IsRedirect(t: seq<char>) {
    t == "<" || t == ">"
  }

  /** Every `<` and `>` met while scanning has a token after it. */
  predicate Paired(ts: seq<seq<char>>)
    decreases |ts|
  {
    if ts == [] then true
    else if IsRedirect(ts[0]) then |ts| >= 2 && Paired(ts[2..])
    else Paired(ts[1..])
  }

  /** What the scan of the tokens after the command yields. */
  datatype Scanned = Scanned(args: seq<seq<char>>, inputFile: Option<seq<char>>, outputFile: Option<seq<char>>)

  const NOTHING_SCANNED := Scanned([], None, None)

  /** `b` scanned after `a`: arguments accumulate, a later file replaces an earlier one. */
  function Then(a: Scanned, b: Scanned): Scanned {
    Scanned(a.args + b.args,
            if b.inputFile.Some? then b.inputFile else a.inputFile,
            if b.outputFile.Some? then b.outputFile else a.outputFile)
  }

  /** The while(token) loop of parse_command_line over the tokens after the command. */
  function Scan(ts: seq<seq<char>>): (r: Scanned)
    requires Paired(ts)
    ensures |r.args| <= |ts|
    ensures r.inputFile.Some? ==> r.inputFile.value in ts
    ensures r.outputFile.Some? ==> r.outputFile.value in ts
    decreases |ts|
  {
    if ts == [] then NOTHING_SCANNED
    else if ts[0] == "<" then Then(Scanned([], Some(ts[1]), None), Scan(ts[2..]))
    else if ts[0] == ">" then Then(Scanned([], None, Some(ts[1])), Scan(ts[2..]))
    else Then(Scanned([ts[0]], None, None), Scan(ts[1..]))
  }

  lemma ThenAssociative(a: Scanned, b: Scanned, c: Scanned)
    ensures Then(Then(a, b), c) == Then(a, Then(b, c))
  {
    assert (a.args + b.args) + c.args == a.args + (b.args + c.args);
  }

  /** Scanning two paired token lists one after the other is scanning their concatenation. */
  lemma {:induction false} ScanAppend(a: seq<seq<char>>, b: seq<seq<char>>)
    requires Paired(a) && Paired(b)
    ensures Paired(a + b)
    ensures Scan(a + b) == Then(Scan(a), Scan(b))
    decreases |a|
  {
    if a == [] {
      assert a + b == b;
      assert Then(NOTHING_SCANNED, Scan(b)) == Scan(b);
    } else {
      var step := if IsRedirect(a[0]) then 2 else 1;
      assert (a + b)[step..] == a[step..] + b;
      ScanAppend(a[step..], b);
      var head := if a[0] == "<" then Scanned([], Some(a[1]), None)
                  else if a[0] == ">" then Scanned([], None, Some(a[1]))
                  else Scanned([a[0]], None, None);
      ThenAssociative(head, Scan(a[step..]), Scan(b));
    }
  }

  /** The later of two input (or output) redirections wins. */
  lemma LaterRedirectionWins(ts: seq<seq<char>>, op: seq<char>, file: seq<char>)
    requires Paired(ts) && IsRedirect(op)
    ensures Paired(ts + [op, file])
    ensures op == "<" ==> (Scan(ts + [op, file]).inputFile == Some(file)
                           && Scan(ts + [op, file]).outputFile == Scan(ts).outputFile)
    ensures op == ">" ==> (Scan(ts + [op, file]).outputFile == Some(file)
                           && Scan(ts + [op, file]).inputFile == Scan(ts).inputFile)
    ensures Scan(ts + [op, file]).args == Scan(ts).args
  {
    var tail: seq<seq<char>> := [op, file];
    assert tail[2..] == [];
    ScanAppend(ts, tail);
  }

  /** A redirection token and its operand never become arguments. */
  lemma {:induction false} ScanArgsHaveNoRedirect(ts: seq<seq<char>>)
    requires Paired(ts)
    ensures forall i :: 0 <= i < |Scan(ts).args| ==> !IsRedirect(Scan(ts).args[i])
    ensures |Scan(ts).args| <= |ts|
    decreases |ts|
  {
    if ts != [] {
      if IsRedirect(ts[0]) {
        ScanArgsHaveNoRedirect(ts[2..]);
      } else {
        ScanArgsHaveNoRedirect(ts[1..]);
      }
    }
  }

  /** Without redirection tokens, every token is an argument, in order. */
  lemma {:induction false} ScanWithoutRedirects(ts: seq<seq<char>>)
    requires forall i :: 0 <= i < |ts| ==> !IsRedirect(ts[i])
    ensures Paired(ts)
    ensures Scan(ts) == Scanned(ts, None, None)
    decreases |ts|
  {
    if ts != [] {
      ScanWithoutRedirects(ts[1..]);
      assert [ts[0]] + ts[1..] == ts;
    }
  }

  /** The end of parse_command_line: a final `&` among two or more arguments is dropped and marks the command as background. */
  function Assemble(command: seq<char>, args: seq<seq<char>>, scanned: Scanned): CommandLine {
    if |args| > 1 && args[|args| - 1] == "&" then
      CommandLine(command, args[..|args| - 1], scanned.inputFile, scanned.outputFile, true)
    else
      CommandLine(command, args, scanned.inputFile, scanned.outputFile, false)
  }

  /** The whole of parse_command_line, given its tokens. */
  function ParseTokens(ts: seq<seq<char>>): (r: CommandLine)
    requires |ts| >= 1 && Paired(ts[1..])
    ensures |r.args| >= 1 && r.command == r.args[0] == ts[0]
    ensures r.inputFile == Scan(ts[1..]).inputFile && r.outputFile == Scan(ts[1..]).outputFile
  {
    Assemble(ts[0], [ts[0]] + Scan(ts[1..]).args, Scan(ts[1..]))
  }

  /**
   * What parse_command_line needs of its line: a first token (strlen(NULL)
   * otherwise), a token after every `<` and `>`, and at most 512 arguments.
   */
  predicate Parsable(line: seq<char>) {
    var ts := Tokens(line);
    |ts| >= 1 && Paired(ts[1..]) && 1 + |Scan(ts[1..]).args| <= MAX_ARGS
  }

  /** The properties the parse promises about the tokens it was given. */
  lemma ParseTokensShape(ts: seq<seq<char>>)
    requires |ts| >= 1 && Paired(ts[1..])
    ensures var c := ParseTokens(ts);
      && |c.args| >= 1 && c.command == c.args[0] == ts[0]
      && (forall i :: 1 <= i < |c.args| ==> !IsRedirect(c.args[i]))
      && (c.runInBackground <==> |Scan(ts[1..]).args| >= 1 && Scan(ts[1..]).args[|Scan(ts[1..]).args| - 1] == "&")
      && c.args + (if c.runInBackground then ["&"] else []) == [ts[0]] + Scan(ts[1..]).args
      && c.inputFile == Scan(ts[1..]).inputFile && c.outputFile == Scan(ts[1..]).outputFile
  {
    ScanArgsHaveNoRedirect(ts[1..]);
    var c := ParseTokens(ts);
    var args := [ts[0]] + Scan(ts[1..]).args;
    if c.runInBackground {
      assert args[..|args| - 1] + ["&"] == args;
    }
  }

  /** "wc < in.txt > out.txt": one argument, both files, foreground. */
  lemma ParseRedirectionExample()
    ensures ParseTokens(["wc", "<", "in.txt", ">", "out.txt"])
         == CommandLine("wc", ["wc"], Some("in.txt"), Some("out.txt"), false)
  {
    var ts: seq<seq<char>> := ["wc", "<", "in.txt", ">", "out.txt"];
    assert ts[1..][2..] == [">", "out.txt"];
    assert ts[1..][2..][2..] == [];
  }

  /** "sleep 5 &": background, and the `&` is not an argument. */
  lemma ParseBackgroundExample()
    ensures ParseTokens(["sleep", "5", "&"]) == CommandLine("sleep", ["sleep", "5"], None, None, true)
  {
    var ts: seq<seq<char>> := ["sleep", "5", "&"];
    assert ts[1..][1..] == ["&"];
    assert ts[1..][1..][1..] == [];
    ScanWithoutRedirects(ts[1..]);
  }

  /** One strtok_r call, as the list of remaining tokens sees it. */
  lemma TokensFromStep(s: seq<char>, pos: nat)
    requires pos <= |s| && NextToken(s, pos).Some?
    ensures TokensFrom(s, pos) != []
    ensures TokensFrom(s, pos)[0] == NextToken(s, pos).value.text
    ensures TokensFrom(s, pos)[1..] == TokensFrom(s, NextToken(s, pos).value.next)
  {
  }

  /** Scanning `<` and its operand. */
  lemma ScanInputStep(scanned: Scanned, rest: seq<seq<char>>)
    requires Paired(rest) && |rest| >= 1 && rest[0] == "<"
    ensures |rest| >= 2 && Paired(rest[2..])
    ensures Then(scanned, Scan(rest)) == Then(scanned.(inputFile := Some(rest[1])), Scan(rest[2..]))
  {
    ThenAssociative(scanned, Scanned([], Some(rest[1]), None), Scan(rest[2..]));
    assert scanned.args + [] == scanned.args;
  }

  /** Scanning `>` and its operand. */
  lemma ScanOutputStep(scanned: Scanned, rest: seq<seq<char>>)
    requires Paired(rest) && |rest| >= 1 && rest[0] == ">"
    ensures |rest| >= 2 && Paired(rest[2..])
    ensures Then(scanned, Scan(rest)) == Then(scanned.(outputFile := Some(rest[1])), Scan(rest[2..]))
  {
    ThenAssociative(scanned, Scanned([], None, Some(rest[1])), Scan(rest[2..]));
    assert scanned.args + [] == scanned.args;
  }

  /** Scanning an ordinary token appends it to the arguments. */
  lemma ScanArgumentStep(scanned: Scanned, rest: seq<seq<char>>)
    requires Paired(rest) && |rest| >= 1 && !IsRedirect(rest[0])
    ensures Paired(rest[1..])
    ensures Then(scanned, Scan(rest)) == Then(scanned.(args := scanned.args + [rest[0]]), Scan(rest[1..]))
    ensures |Then(scanned, Scan(rest)).args| >= |scanned.args| + 1
  {
    ThenAssociative(scanned, Scanned([rest[0]], None, None), Scan(rest[1..]));
  }

  /**
   * Where the strtok_r loop stands: `rest` are the tokens still to come from
   * save position `pos`, and scanning them after `scanned` gives the scan of
   * all tokens from save position `from` on.
   */
  ghost predicate Progress(line: seq<char>, from: nat, pos: nat, rest: seq<seq<char>>, scanned: Scanned) {
    from <= pos <= |line| && rest == TokensFrom(line, pos) && Paired(rest)
    && Paired(TokensFrom(line, from))
    && Then(scanned, Scan(rest)) == Scan(TokensFrom(line, from))
  }

  /** The loop meets a `<` token: the next token is the input file. */
  lemma InputTokenStep(line: seq<char>, from: nat, pos: nat, rest: seq<seq<char>>, scanned: Scanned)
    requires Progress(line, from, pos, rest, scanned)
    requires NextToken(line, pos).Some? && NextToken(line, pos).value.text == "<"
    ensures NextToken(line, NextToken(line, pos).value.next).Some?
    ensures var operand := NextToken(line, NextToken(line, pos).value.next).value;
      && |rest| >= 2 && rest[1] == operand.text
      && Progress(line, from, operand.next, rest[2..], scanned.(inputFile := Some(operand.text)))
  {
    TokensFromStep(line, pos);
    ScanInputStep(scanned, rest);
    var t := NextToken(line, pos).value;
    TokensFromStep(line, t.next);
  }

  /** The loop meets a `>` token: the next token is the output file. */
  lemma OutputTokenStep(line: seq<char>, from: nat, pos: nat, rest: seq<seq<char>>, scanned: Scanned)
    requires Progress(line, from, pos, rest, scanned)
    requires NextToken(line, pos).Some? && NextToken(line, pos).value.text == ">"
    ensures NextToken(line, NextToken(line, pos).value.next).Some?
    ensures var operand := NextToken(line, NextToken(line, pos).value.next).value;
      && |rest| >= 2 && rest[1] == operand.text
      && Progress(line, from, operand.next, rest[2..], scanned.(outputFile := Some(operand.text)))
  {
    TokensFromStep(line, pos);
    ScanOutputStep(scanned, rest);
    var t := NextToken(line, pos).value;
    TokensFromStep(line, t.next);
  }

  /** The loop meets any other token: it is the next argument. */
  lemma ArgumentTokenStep(line: seq<char>, from: nat, pos: nat, rest: seq<seq<char>>, scanned: Scanned)
    requires Progress(line, from, pos, rest, scanned)
    requires NextToken(line, pos).Some? && !IsRedirect(NextToken(line, pos).value.text)
    ensures var t := NextToken(line, pos).value;
      && |rest| >= 1 && rest[0] == t.text
      && Progress(line, from, t.next, rest[1..], scanned.(args := scanned.args + [t.text]))
      && |scanned.args| + 1 <= |Scan(TokensFrom(line, from)).args|
  {
    TokensFromStep(line, pos);
    ScanArgumentStep(scanned, rest);
  }

  /** No token is left: the scan is complete. */
  lemma LastTokenStep(line: seq<char>, from: nat, pos: nat, rest: seq<seq<char>>, scanned: Scanned)
    requires Progress(line, from, pos, rest, scanned) && NextToken(line, pos).None?
    ensures scanned == Scan(TokensFrom(line, from))
  {
    assert rest == [];
    assert scanned.args + [] == scanned.args;
  }

  /**
   * The strtok_r loop of parse_command_line from save position `from` (just
   * after the command) to the end of the line: redirections set the file
   * names, every other token is appended to the arguments.
   */
  method ScanTokens(line: seq<char>, from: nat) returns (scanned: Scanned)
    requires from <= |line| && Paired(TokensFrom(line, from))
    requires |Scan(TokensFrom(line, from)).args| < MAX_ARGS
    ensures scanned == Scan(TokensFrom(line, from))
  {
    scanned := NOTHING_SCANNED;
    var pos := from;
    ghost var rest := TokensFrom(line, from);
    var token := NextToken(line, pos);
    assert Then(scanned, Scan(rest)) == Scan(rest);
    while token.Some?
      invariant Progress(line, from, pos, rest, scanned) && token == NextToken(line, pos)
      decreases |line| - pos
    {
      var t := token.value;
      if t.text == "<" {
        InputTokenStep(line, from, pos, rest, scanned);
        var operand := NextToken(line, t.next).value;
        scanned := scanned.(inputFile := Some(operand.text));
        pos := operand.next;
        rest := rest[2..];
      } else if t.text == ">" {
        OutputTokenStep(line, from, pos, rest, scanned);
        var operand := NextToken(line, t.next).value;
        scanned := scanned.(outputFile := Some(operand.text));
        pos := operand.next;
        rest := rest[2..];
      } else {
        ArgumentTokenStep(line, from, pos, rest, scanned);
        // args_list[args_count] is one of the 512 slots, the command being the first
        assert 1 + |scanned.args| < MAX_ARGS;
        scanned := scanned.(args := scanned.args + [t.text]);
        pos := t.next;
        rest := rest[1..];
      }
      token := NextToken(line, pos);
    }
    LastTokenStep(line, from, pos, rest, scanned);
  }

  /**
   * parse_command_line(line): the first token is the command and the first
   * argument; the rest are scanned; a final `&` argument, when there are at
   * least two, is dropped and makes the command a background command. The
   * result is ParseTokens of the line's tokens.
   */
  method ParseCommandLine(line: seq<char>) returns (cmd: CommandLine)
    requires Parsable(line)
    ensures cmd == ParseTokens(Tokens(line))
    ensures |cmd.args| >= 1 && cmd.command == cmd.args[0] == Tokens(line)[0]
    ensures |cmd.args| <= MAX_ARGS
  {
    var first := NextToken(line, 0);
    TokensFromStep(line, 0);
    var command := first.value.text;
    var scanned := ScanTokens(line, first.value.next);
    var args := [command] + scanned.args;
    var runInBackground := false;
    if |args| > 1 && args[|args| - 1] == "&" {
      runInBackground := true;
      args := args[..|args| - 1];
    }
    cmd := CommandLine(command, args, scanned.inputFile, scanned.outputFile, runInBackground);
  }
}
