/**
 * The background job table: an int array of 100 slots (calloc(100, …) in
 * main) and a count of the live entries in front. This module holds the
 * in-place removal remove_val_at_index and the functions that say what a
 * reap pass (check_background_procs) leaves in the table and reports.
 */
module Jobs {

  import opened Decimal

  /** Slots in the background PID array. */
  const JOB_CAPACITY := 100

  /** How waitpid describes a terminated child: WIFEXITED with WEXITSTATUS, or killed with WTERMSIG. */
  datatype WaitOutcome = Exited(code: nat) | Signaled(signal: nat)

  predicate Distinct(s: seq<int>) {
    forall i, j :: 0 <= i < j < |s| ==> s[i] != s[j]
  }

  predicate AllPositive(s: seq<int>) {
    forall j :: 0 <= j < |s| ==> s[j] > 0
  }

  /** Every slot of `table` in [from, to) holds one of the pids of `pids`. */
  ghost predicate HoldsOnly(table: seq<int>, from: nat, to: nat, pids: seq<int>)
    requires from <= to <= |table|
  {
    forall j :: from <= j < to ==> table[j] in pids
  }

  /** `s` without its element at `index`, the others in order. */
  function RemoveAt(s: seq<int>, index: nat): (r: seq<int>)
    requires index < |s|
    ensures |r| == |s| - 1
    ensures forall j :: 0 <= j < index ==> r[j] == s[j]
    ensures forall j :: index <= j < |r| ==> r[j] == s[j + 1]
  {
    s[..index] + s[index + 1..]
  }

  /**
   * remove_val_at_index(arr, &length, index): entries after `index` move one
   * slot left and the length drops by one. The slot at the old last index
   * keeps its old value, and so does every slot past it.
   */
  method RemoveValAtIndex(arr: array<int>, length: nat, index: nat) returns (newLength: nat)
    requires index < length <= arr.Length
    modifies arr
    ensures newLength == length - 1
    ensures arr[..] == RemoveAt(old(arr[..])[..length], index) + old(arr[..])[length - 1..]
  {
    var i := index;
    while i < length - 1
      invariant index <= i <= length - 1
      invariant forall j :: 0 <= j < index ==> arr[j] == old(arr[j])
      invariant forall j :: index <= j < i ==> arr[j] == old(arr[j + 1])
      invariant forall j :: i <= j < arr.Length ==> arr[j] == old(arr[j])
    {
      arr[i] := arr[i + 1];
      i := i + 1;
    }
    newLength := length - 1;
    assert arr[..] == arr[..newLength] + arr[newLength..];
    assert old(arr[..])[..length] == old(arr[..length]);
  }

  /** The entries whose child has not finished, in table order. */
  function Unfinished(pids: seq<int>, finished: map<int, WaitOutcome>): (r: seq<int>)
    ensures |r| <= |pids|
  {
    if pids == [] then []
    else
      var last := pids[|pids| - 1];
      Unfinished(pids[..|pids| - 1], finished) + (if last in finished then [] else [last])
  }

  /** The entries whose child has finished, in table order: those a reap pass reports. */
  function Finished(pids: seq<int>, finished: map<int, WaitOutcome>): (r: seq<int>)
    ensures |r| <= |pids|
  {
    if pids == [] then []
    else
      var last := pids[|pids| - 1];
      Finished(pids[..|pids| - 1], finished) + (if last in finished then [last] else [])
  }

  /** How a termination is worded: "exit value V" or "terminated by signal S". */
  function OutcomeText(outcome: WaitOutcome): seq<char> {
    match outcome
    case Exited(code) => "exit value " + FormatInt(code)
    case Signaled(signal) => "terminated by signal " + FormatInt(signal)
  }

  /** The line check_background_procs prints for a reaped child. */
  function DoneMessage(pid: int, outcome: WaitOutcome): (line: seq<char>)
    ensures |line| > 15 + |FormatInt(pid)| && line[|line| - 1] == '\n'
    ensures line[..15] == "background pid " && line[15..15 + |FormatInt(pid)|] == FormatInt(pid)
  {
    var head := "background pid " + FormatInt(pid);
    var line := head + " is done: " + OutcomeText(outcome) + "\n";
    assert |"background pid "| == 15 && head[..15] == "background pid " && head[15..] == FormatInt(pid);
    assert line[..|head|] == head;
    line
  }

  /** Everything a reap pass prints, one DoneMessage per finished entry, in table order. */
  function DoneMessages(pids: seq<int>, finished: map<int, WaitOutcome>): seq<char> {
    if pids == [] then []
    else
      var last := pids[|pids| - 1];
      DoneMessages(pids[..|pids| - 1], finished)
        + (if last in finished then DoneMessage(last, finished[last]) else [])
  }

  /** A pid stays in the table exactly when it is registered and its child has not finished. */
  lemma {:induction false} UnfinishedMembers(pids: seq<int>, finished: map<int, WaitOutcome>, p: int)
    ensures p in Unfinished(pids, finished) <==> p in pids && p !in finished
    decreases |pids|
  {
    if pids != [] {
      var init := pids[..|pids| - 1];
      UnfinishedMembers(init, finished, p);
      assert pids == init + [pids[|pids| - 1]];
    }
  }

  /** A reap pass drops no entry and adds none: kept plus reported is the table. */
  lemma {:induction false} ReapPartitions(pids: seq<int>, finished: map<int, WaitOutcome>)
    ensures |Unfinished(pids, finished)| + |Finished(pids, finished)| == |pids|
    ensures multiset(Unfinished(pids, finished)) + multiset(Finished(pids, finished)) == multiset(pids)
    decreases |pids|
  {
    if pids != [] {
      var init := pids[..|pids| - 1];
      ReapPartitions(init, finished);
      assert pids == init + [pids[|pids| - 1]];
    }
  }

  /** In a table without duplicates, every registered finished child is reported exactly once, and no other pid is. */
  lemma ReportedExactlyOnce(pids: seq<int>, finished: map<int, WaitOutcome>, p: int)
    requires Distinct(pids)
    ensures multiset(Finished(pids, finished))[p] == if p in pids && p in finished then 1 else 0
  {
    ReapPartitions(pids, finished);
    DistinctOccursOnce(pids, p);
    UnfinishedMembers(pids, finished, p);
    assert (p in Unfinished(pids, finished)) == (multiset(Unfinished(pids, finished))[p] > 0);
  }

  lemma {:induction false} DistinctOccursOnce(s: seq<int>, p: int)
    requires Distinct(s)
    ensures multiset(s)[p] == if p in s then 1 else 0
    decreases |s|
  {
    if s != [] {
      var init := s[..|s| - 1];
      assert s == init + [s[|s| - 1]];
      assert Distinct(init);
      DistinctOccursOnce(init, p);
      assert s[|s| - 1] !in init by {
        forall i | 0 <= i < |init| ensures init[i] != s[|s| - 1] {
          assert s[i] == init[i];
        }
      }
    }
  }

  /**
   * Where each kept entry sat in the table before the pass: strictly
   * increasing positions, so the entries a reap pass keeps stay in their
   * original relative order.
   */
  function KeptPositions(pids: seq<int>, finished: map<int, WaitOutcome>): (r: seq<nat>)
    ensures |r| == |Unfinished(pids, finished)|
    ensures forall k :: 0 <= k < |r| ==> r[k] < |pids| && pids[r[k]] == Unfinished(pids, finished)[k]
    ensures forall k, l :: 0 <= k < l < |r| ==> r[k] < r[l]
  {
    if pids == [] then []
    else
      var init, last := pids[..|pids| - 1], pids[|pids| - 1];
      var earlier := KeptPositions(init, finished);
      assert Unfinished(pids, finished) == Unfinished(init, finished) + (if last in finished then [] else [last]);
      assert forall k :: 0 <= k < |earlier| ==> pids[earlier[k]] == init[earlier[k]];
      earlier + (if last in finished then [] else [|pids| - 1])
  }

  /** Removing entries keeps a table free of duplicates. */
  lemma {:induction false} UnfinishedDistinct(pids: seq<int>, finished: map<int, WaitOutcome>)
    requires Distinct(pids)
    ensures Distinct(Unfinished(pids, finished))
    decreases |pids|
  {
    if pids != [] {
      var init := pids[..|pids| - 1];
      var last := pids[|pids| - 1];
      assert Distinct(init);
      UnfinishedDistinct(init, finished);
      UnfinishedMembers(init, finished, last);
      assert last !in init by {
        forall i | 0 <= i < |init| ensures init[i] != last {
          assert pids[i] == init[i];
        }
      }
    }
  }

  /** The entries a pass keeps are positive when the table's were. */
  lemma {:induction false} UnfinishedPositive(pids: seq<int>, finished: map<int, WaitOutcome>)
    requires AllPositive(pids)
    ensures AllPositive(Unfinished(pids, finished))
    decreases |pids|
  {
    if pids != [] {
      var init := pids[..|pids| - 1];
      assert AllPositive(init);
      UnfinishedPositive(init, finished);
    }
  }

  /** When every registered child has finished, a pass empties the table and reports each of them. */
  lemma AllFinishedEmptiesTable(pids: seq<int>, finished: map<int, WaitOutcome>)
    requires forall i :: 0 <= i < |pids| ==> pids[i] in finished
    ensures Unfinished(pids, finished) == []
    ensures Finished(pids, finished) == pids
  {
    if pids != [] {
      var init := pids[..|pids| - 1];
      AllFinishedEmptiesTable(init, finished);
      assert init + [pids[|pids| - 1]] == pids;
    }
  }

  /**
   * waitpid(pid, &status, WNOHANG) for one poll of a pass: -1 once the child
   * has been reaped, the pid itself when it has finished and is reaped now,
   * 0 while it is still running. `finished` is a snapshot of the children
   * that have terminated; `reaped` holds those already collected.
   */
  function WaitNoHang(pid: int, finished: map<int, WaitOutcome>, reaped: set<int>): (r: int)
    ensures pid in reaped ==> r == -1
    ensures pid > 0 ==> (r == pid <==> pid !in reaped && pid in finished)
    ensures pid > 0 && pid !in reaped && pid !in finished ==> r == 0
  {
    if pid in reaped then -1 else if pid in finished then pid else 0
  }

  /** Processing one more table entry extends the kept, reported and printed sequences by that entry alone. */
  lemma ReapOneMore(orig: seq<int>, finished: map<int, WaitOutcome>, k: nat)
    requires k < |orig|
    ensures Unfinished(orig[..k + 1], finished)
            == Unfinished(orig[..k], finished) + (if orig[k] in finished then [] else [orig[k]])
    ensures Finished(orig[..k + 1], finished)
            == Finished(orig[..k], finished) + (if orig[k] in finished then [orig[k]] else [])
    ensures DoneMessages(orig[..k + 1], finished)
            == DoneMessages(orig[..k], finished)
               + (if orig[k] in finished then DoneMessage(orig[k], finished[orig[k]]) else [])
  {
    assert orig[..k + 1][..k] == orig[..k];
  }

  /**
   * Removing entry `i` of a duplicate-free table of positive pids that are
   * not in `gone` leaves a duplicate-free table of positive pids, none of
   * them the removed one; every old entry is the removed one or is kept.
   */
  lemma RemovalKeepsTable(live: seq<int>, i: nat, gone: set<int>)
    requires i < |live| && Distinct(live)
    requires forall j :: 0 <= j < |live| ==> live[j] > 0 && live[j] !in gone
    ensures Distinct(RemoveAt(live, i))
    ensures forall j :: 0 <= j < |live| - 1 ==> RemoveAt(live, i)[j] > 0 && RemoveAt(live, i)[j] !in gone + {live[i]}
    ensures forall y :: y in live ==> y == live[i] || y in RemoveAt(live, i)
  {
    var r := RemoveAt(live, i);
    forall y | y in live ensures y == live[i] || y in r {
      var j :| 0 <= j < |live| && live[j] == y;
      if j < i {
        assert r[j] == y;
      } else if j > i {
        assert r[j - 1] == y;
      }
    }
  }

  /** Dropping the entry at the seam of `a + [x] + b` gives `a + b`. */
  lemma RemoveAtSeam(a: seq<int>, x: int, b: seq<int>)
    ensures RemoveAt(a + [x] + b, |a|) == a + b
  {
    assert (a + [x] + b)[..|a|] == a;
    assert (a + [x] + b)[|a| + 1..] == b;
  }

  /**
   * What holds at the head of every iteration of the reap pass over the
   * original entries `orig`, with `table` the whole array, `count` its live
   * length, `k` the original entries dealt with so far and `i` the loop
   * index: the progress part and the slot part below, and slots from the
   * frozen bound on still hold what they held at the `start` of the pass.
   */
  ghost predicate PassInvariant(orig: seq<int>, finished: map<int, WaitOutcome>, start: seq<int>, k: nat, i: int, count: nat,
                                table: seq<int>, gone: set<int>, reaped: seq<int>, output: seq<char>)
  {
    PassProgress(orig, finished, k, i, count, table, reaped, output)
    && PassSlots(orig, finished, count, table, gone)
    && |table| == |start| && table[|orig|..] == start[|orig|..]
  }

  /**
   * Below `count` sit the kept entries then the unprocessed ones; what was
   * reported so far is what was dealt with.
   */
  ghost predicate PassProgress(orig: seq<int>, finished: map<int, WaitOutcome>, k: nat, i: int, count: nat,
                               table: seq<int>, reaped: seq<int>, output: seq<char>)
  {
    k <= |orig| && 0 <= i <= |orig| && count <= |orig| <= |table|
    && table[..count] == Unfinished(orig[..k], finished) + orig[k..]
    && (k < |orig| ==> i == |Unfinished(orig[..k], finished)|)
    && (k == |orig| ==> count <= i)
    && reaped == Finished(orig[..k], finished)
    && output == DoneMessages(orig[..k], finished)
  }

  /**
   * The live entries are distinct positive pids not yet reaped; between
   * `count` and the frozen bound sit stale copies, each a pid reaped earlier
   * in this pass or one still in the table.
   */
  ghost predicate PassSlots(orig: seq<int>, finished: map<int, WaitOutcome>, count: nat, table: seq<int>, gone: set<int>)
  {
    count <= |orig| <= |table|
    && (forall p :: p in gone ==> p > 0 && p in finished && p in orig)
    && Distinct(table[..count])
    && (forall j :: 0 <= j < count ==> table[j] > 0 && table[j] !in gone)
    && (forall j :: count <= j < |orig| ==> table[j] in gone || table[j] in table[..count])
  }

  lemma PassStarts(orig: seq<int>, finished: map<int, WaitOutcome>, table: seq<int>)
    requires |orig| <= |table| && table[..|orig|] == orig
    requires Distinct(orig) && AllPositive(orig)
    ensures PassInvariant(orig, finished, table, 0, 0, |orig|, table, {}, [], [])
  {
    assert orig[..0] == [];
  }

  /** Polling a slot past the count never reports: its pid was reaped (waitpid gives -1) or is running (0). */
  lemma PassStaleSlot(orig: seq<int>, finished: map<int, WaitOutcome>, start: seq<int>, i: int, count: nat,
                      table: seq<int>, gone: set<int>, reaped: seq<int>, output: seq<char>)
    requires PassInvariant(orig, finished, start, |orig|, i, count, table, gone, reaped, output)
    requires i < |orig|
    ensures WaitNoHang(table[i], finished, gone) != table[i]
    ensures PassInvariant(orig, finished, start, |orig|, i + 1, count, table, gone, reaped, output)
  {
    if table[i] !in gone {
      assert orig[..|orig|] == orig;
      var j :| 0 <= j < count && table[..count][j] == table[i];
      UnfinishedMembers(orig, finished, table[i]);
    }
  }

  /** A live entry that is still running stays where it is and joins the kept part. */
  lemma PassKeeps(orig: seq<int>, finished: map<int, WaitOutcome>, start: seq<int>, k: nat, i: int, count: nat,
                  table: seq<int>, gone: set<int>, reaped: seq<int>, output: seq<char>)
    requires PassInvariant(orig, finished, start, k, i, count, table, gone, reaped, output)
    requires k < |orig| && WaitNoHang(table[i], finished, gone) != table[i]
    ensures PassInvariant(orig, finished, start, k + 1, i + 1, count, table, gone, reaped, output)
  {
    var kept := Unfinished(orig[..k], finished);
    assert table[..count][i] == orig[k];
    ReapOneMore(orig, finished, k);
    assert orig[k..] == [orig[k]] + orig[k + 1..];
    assert kept + orig[k..] == (kept + [orig[k]]) + orig[k + 1..];
  }

  /** A poll that reports nothing leaves the table alone and moves the index on. */
  lemma PassSkips(orig: seq<int>, finished: map<int, WaitOutcome>, start: seq<int>, k: nat, i: int, count: nat,
                  table: seq<int>, gone: set<int>, reaped: seq<int>, output: seq<char>)
    requires PassInvariant(orig, finished, start, k, i, count, table, gone, reaped, output)
    requires i < |orig| && WaitNoHang(table[i], finished, gone) != table[i]
    ensures PassInvariant(orig, finished, start, if k < |orig| then k + 1 else k, i + 1, count, table, gone, reaped, output)
  {
    if k < |orig| {
      PassKeeps(orig, finished, start, k, i, count, table, gone, reaped, output);
    } else {
      PassStaleSlot(orig, finished, start, i, count, table, gone, reaped, output);
    }
  }

  /** A poll that returns the slot's own pid happens only at a live entry whose child has finished. */
  lemma PassReportsLiveOnly(orig: seq<int>, finished: map<int, WaitOutcome>, start: seq<int>, k: nat, i: int, count: nat,
                            table: seq<int>, gone: set<int>, reaped: seq<int>, output: seq<char>)
    requires PassInvariant(orig, finished, start, k, i, count, table, gone, reaped, output)
    requires i < |orig| && WaitNoHang(table[i], finished, gone) == table[i]
    ensures k < |orig| && 0 <= i < count && table[i] == orig[k] && table[i] in finished
  {
    if k == |orig| {
      PassStaleSlot(orig, finished, start, i, count, table, gone, reaped, output);
    }
    assert table[..count][i] == orig[k];
  }

  /** Removing the finished entry at `i` as remove_val_at_index does moves the pass on to the next original entry. */
  lemma PassReapsProgress(orig: seq<int>, finished: map<int, WaitOutcome>, k: nat, i: int, count: nat,
                          table: seq<int>, reaped: seq<int>, output: seq<char>)
    requires PassProgress(orig, finished, k, i, count, table, reaped, output)
    requires k < |orig| && 0 <= i < count && table[i] == orig[k] && orig[k] in finished
    ensures PassProgress(orig, finished, k + 1, i, count - 1,
                         RemoveAt(table[..count], i) + table[count - 1..],
                         reaped + [orig[k]], output + DoneMessage(orig[k], finished[orig[k]]))
  {
    var kept := Unfinished(orig[..k], finished);
    var rest := orig[k + 1..];
    var removed := RemoveAt(table[..count], i);
    assert orig[k..] == [orig[k]] + rest;
    assert table[..count] == kept + [orig[k]] + rest;
    RemoveAtSeam(kept, orig[k], rest);
    assert removed == kept + rest;
    ReapOneMore(orig, finished, k);
    var table' := removed + table[count - 1..];
    assert table'[..count - 1] == removed;
  }

  /** The removal leaves every slot from the old last index on as it was. */
  lemma RemovalKeepsTail(table: seq<int>, count: nat, i: nat, bound: nat)
    requires i < count <= bound <= |table|
    ensures |RemoveAt(table[..count], i) + table[count - 1..]| == |table|
    ensures (RemoveAt(table[..count], i) + table[count - 1..])[bound..] == table[bound..]
  {
  }

  /** The same removal keeps the slots distinct and positive, and leaves the removed pid only as a stale copy. */
  lemma PassReapsSlots(orig: seq<int>, finished: map<int, WaitOutcome>, i: int, count: nat,
                       table: seq<int>, gone: set<int>)
    requires PassSlots(orig, finished, count, table, gone)
    requires 0 <= i < count && table[i] in finished && table[i] in orig
    ensures PassSlots(orig, finished, count - 1, RemoveAt(table[..count], i) + table[count - 1..], gone + {table[i]})
  {
    var live := table[..count];
    var pid := table[i];
    var table' := RemoveAt(live, i) + table[count - 1..];
    RemovalKeepsTable(live, i, gone);
    assert table'[..count - 1] == RemoveAt(live, i);
    forall j | count - 1 <= j < |orig|
      ensures table'[j] in gone + {pid} || table'[j] in table'[..count - 1]
    {
      assert table'[j] == table[j];
      if j == count - 1 {
        assert table[j] == live[j];
      }
    }
  }

  /**
   * A poll that returns the slot's own pid happens only at a live entry
   * whose child has finished; removing that entry as remove_val_at_index
   * does, and stepping the index back, re-establishes the invariant.
   */
  lemma PassReaps(orig: seq<int>, finished: map<int, WaitOutcome>, start: seq<int>, k: nat, i: int, count: nat,
                  table: seq<int>, gone: set<int>, reaped: seq<int>, output: seq<char>)
    requires PassInvariant(orig, finished, start, k, i, count, table, gone, reaped, output)
    requires i < |orig| && WaitNoHang(table[i], finished, gone) == table[i]
    ensures 0 <= i < count && table[i] in finished && k < |orig|
    ensures PassInvariant(orig, finished, start, k + 1, i, count - 1,
                          RemoveAt(table[..count], i) + table[count - 1..],
                          gone + {table[i]}, reaped + [table[i]],
                          output + DoneMessage(table[i], finished[table[i]]))
  {
    PassReportsLiveOnly(orig, finished, start, k, i, count, table, gone, reaped, output);
    PassReapsProgress(orig, finished, k, i, count, table, reaped, output);
    PassReapsSlots(orig, finished, i, count, table, gone);
    RemovalKeepsTail(table, count, i, |orig|);
  }

  /**
   * PassReaps again, with the state before and after the reap passed
   * separately. CheckBackgroundProcs calls this form so that its loop body
   * only has to match the values it assigned, which keeps that proof small;
   * it states nothing beyond PassReaps.
   */
  lemma PassReapedStep(orig: seq<int>, finished: map<int, WaitOutcome>, start: seq<int>,
                       k0: nat, i0: int, count0: nat, table0: seq<int>, gone0: set<int>, reaped0: seq<int>, output0: seq<char>,
                       k: nat, i: int, count: nat, table: seq<int>, gone: set<int>, reaped: seq<int>, output: seq<char>)
    requires PassInvariant(orig, finished, start, k0, i0, count0, table0, gone0, reaped0, output0)
    requires i0 < |orig| && 0 <= i0 < count0 && table0[i0] in finished
    requires WaitNoHang(table0[i0], finished, gone0) == table0[i0]
    requires k == k0 + 1 && i == i0 && count == count0 - 1
    requires table == RemoveAt(table0[..count0], i0) + table0[count0 - 1..]
    requires gone == gone0 + {table0[i0]} && reaped == reaped0 + [table0[i0]]
    requires output == output0 + DoneMessage(table0[i0], finished[table0[i0]])
    ensures PassInvariant(orig, finished, start, k, i, count, table, gone, reaped, output)
  {
    PassReaps(orig, finished, start, k0, i0, count0, table0, gone0, reaped0, output0);
  }

  /** Once the index reaches the frozen bound every original entry has been dealt with. */
  lemma PassEnds(orig: seq<int>, finished: map<int, WaitOutcome>, start: seq<int>, k: nat, i: int, count: nat,
                 table: seq<int>, gone: set<int>, reaped: seq<int>, output: seq<char>)
    requires PassInvariant(orig, finished, start, k, i, count, table, gone, reaped, output)
    requires i >= |orig| && Distinct(orig)
    ensures table[..count] == Unfinished(orig, finished)
    ensures reaped == Finished(orig, finished)
    ensures output == DoneMessages(orig, finished)
    ensures count == |orig| - |reaped|
    ensures count <= |orig| <= |table|
    ensures HoldsOnly(table, count, |orig|, orig)
    ensures table[|orig|..] == start[|orig|..]
  {
    assert k == |orig|;
    assert orig[..k] == orig;
    ReapPartitions(orig, finished);
    forall j | count <= j < |orig| ensures table[j] in orig {
      StaleSlotInOrig(orig, finished, count, table, gone, j);
    }
  }

  lemma StaleSlotInOrig(orig: seq<int>, finished: map<int, WaitOutcome>, count: nat, table: seq<int>, gone: set<int>, j: nat)
    requires PassSlots(orig, finished, count, table, gone)
    requires table[..count] == Unfinished(orig, finished)
    requires count <= j < |orig|
    ensures table[j] in orig
  {
    assert table[j] in gone || table[j] in table[..count];
    if table[j] !in gone {
      assert table[j] in Unfinished(orig, finished);
      UnfinishedMembers(orig, finished, table[j]);
    }
  }

  /**
   * check_background_procs(procs, &count, &status): poll every slot below
   * the count taken at the start, remove each finished child, step the
   * index back after a removal, and print one line per reaped child. Slots
   * the shrinking count has left behind are still polled; they hold pids
   * reaped earlier in the pass or still in the table, so none is reported
   * twice. `status` is passed in but never written, so it is not a
   * parameter here.
   */
  method CheckBackgroundProcs(procs: array<int>, count: nat, finished: map<int, WaitOutcome>)
      returns (newCount: nat, reaped: seq<int>, output: seq<char>)
    requires count <= procs.Length
    requires Distinct(procs[..count]) && AllPositive(procs[..count])
    modifies procs
    ensures newCount <= count
    ensures procs[..newCount] == Unfinished(old(procs[..count]), finished)
    ensures reaped == Finished(old(procs[..count]), finished)
    ensures output == DoneMessages(old(procs[..count]), finished)
    ensures newCount == count - |reaped|
    ensures HoldsOnly(procs[..], newCount, count, old(procs[..count]))
    ensures procs[count..] == old(procs[count..])
  {
    var arrLength := count;
    var bgCount := count;
    ghost var orig := procs[..arrLength];
    ghost var start := procs[..];
    ghost var k: nat := 0;
    var gone: set<int> := {};
    reaped := [];
    output := [];
    PassStarts(orig, finished, start);
    var i: int := 0;
    while i < arrLength
      invariant |orig| == arrLength
      invariant PassInvariant(orig, finished, start, k, i, bgCount, procs[..], gone, reaped, output)
      decreases arrLength - i + bgCount
    {
      var pidCheck := WaitNoHang(procs[i], finished, gone);
      if pidCheck == procs[i] {
        ghost var table, i0, count0, gone0, reaped0, output0, k0 := procs[..], i, bgCount, gone, reaped, output, k;
        PassReportsLiveOnly(orig, finished, start, k, i, bgCount, table, gone, reaped, output);
        var pid := procs[i];
        bgCount := RemoveValAtIndex(procs, bgCount, i);
        i := i - 1;
        gone := gone + {pid};
        reaped := reaped + [pid];
        output := output + DoneMessage(pid, finished[pid]);
        k := k + 1;
        PassReapedStep(orig, finished, start, k0, i0, count0, table, gone0, reaped0, output0,
                       k, i + 1, bgCount, procs[..], gone, reaped, output);
      } else {
        PassSkips(orig, finished, start, k, i, bgCount, procs[..], gone, reaped, output);
        k := if k < arrLength then k + 1 else k;
      }
      i := i + 1;
    }
    PassEnds(orig, finished, start, k, i, bgCount, procs[..], gone, reaped, output);
    newCount := bgCount;
    assert procs[..][arrLength..] == procs[arrLength..];
  }
}
