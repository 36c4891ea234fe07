/**
 * `$$` expansion (variable_expansion): every leftmost, non-overlapping
 * occurrence of the two characters `$$` is replaced by the decimal PID of the
 * shell, and the line's final character (its newline) is dropped. The C code
 * writes into a zero-filled buffer of 2048 bytes with strncat/strcat.
 */
module Expansion {

  import opened Wrappers
  import opened Decimal

  /** Size of the buffer variable_expansion allocates for its result. */
  const OUTPUT_BUFFER_SIZE := 2048

  /** `$$` starts at index `i` of `s`. */
  predicate PairAt(s: seq<char>, i: int) {
    0 <= i && i + 1 < |s| && s[i] == '$' && s[i + 1] == '$'
  }

  /** No `$$` occurs anywhere in `s`. */
  predicate NoPair(s: seq<char>) {
    forall i :: 0 <= i < |s| ==> !PairAt(s, i)
  }

  /**
   * Reference definition: scanning left to right, a `$$` is replaced by `pid`
   * and scanning resumes after it; any other character is copied.
   */
  function Expand(s: seq<char>, pid: seq<char>): seq<char>
    decreases |s|
  {
    if |s| >= 2 && s[0] == '$' && s[1] == '$' then pid + Expand(s[2..], pid)
    else if s == [] then []
    else [s[0]] + Expand(s[1..], pid)
  }

  /** Number of replacements Expand performs. */
  function Replacements(s: seq<char>): nat
    decreases |s|
  {
    if |s| >= 2 && s[0] == '$' && s[1] == '$' then 1 + Replacements(s[2..])
    else if s == [] then 0
    else Replacements(s[1..])
  }

  /**
   * strstr(s + from, "$$"): the first index at or after `from` where `$$`
   * starts, or None.
   */
  function FindPair(s: seq<char>, from: nat): (r: Option<nat>)
    requires from <= |s|
    ensures r.Some? ==> from <= r.value && PairAt(s, r.value)
    ensures r.Some? ==> forall k :: from <= k < r.value ==> !PairAt(s, k)
    ensures r.None? ==> forall k :: from <= k ==> !PairAt(s, k)
    decreases |s| - from
  {
    if from + 1 >= |s| then None
    else if s[from] == '$' && s[from + 1] == '$' then Some(from)
    else FindPair(s, from + 1)
  }

  /** A prefix without `$$` is copied unchanged. */
  lemma {:induction false} ExpandCopiesPrefix(s: seq<char>, pid: seq<char>, j: nat)
    requires j <= |s|
    requires forall k :: 0 <= k < j ==> !PairAt(s, k)
    ensures Expand(s, pid) == s[..j] + Expand(s[j..], pid)
    decreases j
  {
    if j > 0 {
      assert !PairAt(s, 0);
      forall k | 0 <= k < j - 1 ensures !PairAt(s[1..], k) {
        assert !PairAt(s, k + 1);
      }
      ExpandCopiesPrefix(s[1..], pid, j - 1);
      assert s[1..][j - 1..] == s[j..];
      assert s[..j] == [s[0]] + s[1..][..j - 1];
    }
  }

  /** With no `$$` at all the text is unchanged. */
  lemma ExpandWithoutPairIsIdentity(s: seq<char>, pid: seq<char>)
    requires NoPair(s)
    ensures Expand(s, pid) == s
    ensures Replacements(s) == 0
  {
    ExpandCopiesPrefix(s, pid, |s|);
    assert s[|s|..] == [];
    ReplacementsCount(s, pid);
  }

  /** Helper for the identity lemma: no pair, no replacement. */
  lemma {:induction false} ReplacementsCount(s: seq<char>, pid: seq<char>)
    requires NoPair(s)
    ensures Replacements(s) == 0
    decreases |s|
  {
    if s != [] {
      assert !PairAt(s, 0);
      forall k | 0 <= k < |s[1..]| ensures !PairAt(s[1..], k) {
        assert !PairAt(s, k + 1);
      }
      ReplacementsCount(s[1..], pid);
    }
  }

  /** Each replacement turns two characters into the PID string. */
  lemma {:induction false} ExpandLength(s: seq<char>, pid: seq<char>)
    ensures |Expand(s, pid)| == |s| + Replacements(s) * (|pid| - 2)
    decreases |s|
  {
    if |s| >= 2 && s[0] == '$' && s[1] == '$' {
      ExpandLength(s[2..], pid);
      var r, d := Replacements(s[2..]), |pid| - 2;
      assert (1 + r) * d == d + r * d;
    } else if s != [] {
      ExpandLength(s[1..], pid);
    }
  }

  /**
   * When the PID text is digits, the expanded line holds no `$$`: every `$`
   * that survives was not followed by another `$`.
   */
  lemma {:induction false} ExpansionHasNoPair(s: seq<char>, pid: seq<char>)
    requires |pid| >= 1 && AllDigits(pid)
    ensures NoPair(Expand(s, pid))
    ensures Expand(s, pid) != [] && Expand(s, pid)[0] == '$' ==> |s| >= 1 && s[0] == '$' && (|s| == 1 || s[1] != '$')
    decreases |s|
  {
    var e := Expand(s, pid);
    if |s| >= 2 && s[0] == '$' && s[1] == '$' {
      ExpansionHasNoPair(s[2..], pid);
      var rest := Expand(s[2..], pid);
      assert e == pid + rest;
      forall k | 0 <= k < |e| ensures !PairAt(e, k) {
        if k < |pid| {
          assert e[k] == pid[k] && IsDigit(pid[k]);
        } else {
          assert !PairAt(rest, k - |pid|);
        }
      }
    } else if s != [] {
      ExpansionHasNoPair(s[1..], pid);
      var rest := Expand(s[1..], pid);
      assert e == [s[0]] + rest;
      forall k | 0 <= k < |e| ensures !PairAt(e, k) {
        if k == 0 {
          if |rest| > 0 && rest[0] == '$' {
            assert s[1..][0] == '$';
          }
        } else {
          assert !PairAt(rest, k - 1);
        }
      }
    }
  }

  /** Expanding an already expanded line changes nothing. */
  lemma ExpandIdempotent(s: seq<char>, pid: seq<char>)
    requires |pid| >= 1 && AllDigits(pid)
    ensures Expand(Expand(s, pid), pid) == Expand(s, pid)
  {
    ExpansionHasNoPair(s, pid);
    ExpandWithoutPairIsIdentity(Expand(s, pid), pid);
  }

  /** A third `$` after a pair is copied; four become two PIDs. */
  lemma TripleAndQuadrupleDollar(pid: seq<char>)
    ensures Expand("$$$", pid) == pid + "$"
    ensures Expand("$$$$", pid) == pid + pid
  {
    assert "$$$"[2..] == "$";
    assert "$$$$"[2..] == "$$";
    assert "$$"[2..] == [];
  }

  /**
   * One round of variable_expansion's loop: strstr found `$$` at `at`, so the
   * text from `pointer` expands to the copied gap, the PID, and the expansion
   * of what follows the pair.
   */
  lemma ExpandAtFoundPair(line: seq<char>, pointer: nat, at: nat, pid: seq<char>)
    requires |line| >= 1 && line[|line| - 1] == '\n'
    requires pointer <= at && PairAt(line, at)
    requires forall k :: pointer <= k < at ==> !PairAt(line, k)
    ensures at + 2 <= |line| - 1
    ensures Expand(line[pointer..|line| - 1], pid)
         == line[pointer..at] + pid + Expand(line[at + 2..|line| - 1], pid)
  {
    assert at + 1 != |line| - 1;
    var rest := line[pointer..|line| - 1];
    var j := at - pointer;
    assert PairAt(rest, j);
    forall k | 0 <= k < j ensures !PairAt(rest, k) {
      assert !PairAt(line, pointer + k);
    }
    ExpandAtFirstPair(rest, pid, j);
    assert rest[..j] == line[pointer..at];
    assert rest[j + 2..] == line[at + 2..|line| - 1];
  }

  /** Up to its first `$$` a text is copied, then the pair is replaced. */
  lemma ExpandAtFirstPair(s: seq<char>, pid: seq<char>, j: nat)
    requires PairAt(s, j)
    requires forall k :: 0 <= k < j ==> !PairAt(s, k)
    ensures Expand(s, pid) == s[..j] + pid + Expand(s[j + 2..], pid)
  {
    ExpandCopiesPrefix(s, pid, j);
    ExpandAtPair(s[j..], pid);
    assert s[j..][2..] == s[j + 2..];
  }

  /** A leading `$$` is replaced. */
  lemma ExpandAtPair(s: seq<char>, pid: seq<char>)
    requires PairAt(s, 0)
    ensures Expand(s, pid) == pid + Expand(s[2..], pid)
  {
  }

  /** The end of variable_expansion: no `$$` is left, so the rest is copied. */
  lemma ExpandRestWithoutPair(line: seq<char>, pointer: nat, pid: seq<char>)
    requires pointer <= |line| - 1
    requires forall k :: pointer <= k ==> !PairAt(line, k)
    ensures Expand(line[pointer..|line| - 1], pid) == line[pointer..|line| - 1]
  {
    var rest := line[pointer..|line| - 1];
    forall k | 0 <= k < |rest| ensures !PairAt(rest, k) {
      assert !PairAt(line, pointer + k);
    }
    ExpandWithoutPairIsIdentity(rest, pid);
  }

  /** One turn of variable_expansion's loop keeps the output a prefix of the expansion. */
  lemma ExpansionStep(line: seq<char>, pointer: nat, at: nat, pid: seq<char>, expanded: seq<char>)
    requires |line| >= 1 && line[|line| - 1] == '\n'
    requires pointer <= at && PairAt(line, at)
    requires forall k :: pointer <= k < at ==> !PairAt(line, k)
    requires expanded + Expand(line[pointer..|line| - 1], pid) == Expand(line[..|line| - 1], pid)
    ensures at + 2 <= |line| - 1
    ensures expanded + line[pointer..at] + pid + Expand(line[at + 2..|line| - 1], pid) == Expand(line[..|line| - 1], pid)
    ensures |expanded + line[pointer..at] + pid| <= |Expand(line[..|line| - 1], pid)|
  {
    ExpandAtFoundPair(line, pointer, at, pid);
    Regroup(expanded, line[pointer..at], pid, Expand(line[pointer..|line| - 1], pid),
            Expand(line[at + 2..|line| - 1], pid), Expand(line[..|line| - 1], pid));
  }

  lemma Regroup(done: seq<char>, copied: seq<char>, pid: seq<char>, before: seq<char>, after: seq<char>, whole: seq<char>)
    requires done + before == whole && before == copied + pid + after
    ensures done + copied + pid + after == whole
    ensures |done + copied + pid| <= |whole|
  {
    assert done + (copied + pid + after) == done + copied + pid + after;
  }

  /**
   * variable_expansion(line) with the shell's PID `pid`: the line without its
   * final newline, each `$$` replaced by the PID's digits. The caller must
   * ensure the result and its terminating NUL fit the 2048-byte buffer.
   */
  method VariableExpansion(line: seq<char>, pid: nat) returns (expanded: seq<char>)
    requires |line| >= 1 && line[|line| - 1] == '\n'
    requires |Expand(line[..|line| - 1], DecimalString(pid))| < OUTPUT_BUFFER_SIZE
    ensures expanded == Expand(line[..|line| - 1], DecimalString(pid))
  {
    var pidText := DecimalString(pid);
    expanded := [];
    var pointer := 0;
    var found := FindPair(line, pointer);
    while found.Some?
      invariant pointer <= |line| - 1
      invariant found == FindPair(line, pointer)
      invariant expanded + Expand(line[pointer..|line| - 1], pidText) == Expand(line[..|line| - 1], pidText)
      invariant |expanded| < OUTPUT_BUFFER_SIZE
      decreases |line| - pointer
    {
      var at := found.value;
      ExpansionStep(line, pointer, at, pidText, expanded);
      // strncat of the text before the pair, then strcat of the PID
      expanded := expanded + line[pointer..at] + pidText;
      pointer := at + 2;
      found := FindPair(line, pointer);
    }
    ExpandRestWithoutPair(line, pointer, pidText);
    expanded := expanded + line[pointer..|line| - 1];
  }
}
