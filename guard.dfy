/** `is_process_running` in contab-windows/my_cron.py: the startup check that
    counts other running copies of the scheduler. The operating system's
    process table is a parameter: a map from pid to parent pid and command
    line, where a pid that is missing is one whose lookup raised. */
module InstanceGuard {
  import opened Text

  datatype ProcessInfo = ProcessInfo(ppid: int, cmdline: seq<string>)

  type ProcessTable = map<int, ProcessInfo>

  lemma RemoveOneKey(keys: set<int>, seen: set<int>, pid: int)
    requires pid in keys && pid !in seen
    ensures |keys - (seen + {pid})| < |keys - seen|
  {
    assert keys - seen == (keys - (seen + {pid})) + {pid};
  }

  /** The pids the ancestor walk visits from `pid` on, in order, when the pids
      in `seen` have been visited before. */
  function AncestorChain(table: ProcessTable, pid: int, seen: set<int>): (chain: seq<int>)
    requires pid !in seen
    ensures |chain| >= 1 && chain[0] == pid
    decreases |table.Keys - seen|
  {
    if pid !in table then [pid]
    else
      var parent := table[pid].ppid;
      if parent in seen + {pid} || parent == 0 then [pid]
      else
        RemoveOneKey(table.Keys, seen, pid);
        [pid] + AncestorChain(table, parent, seen + {pid})
  }

  /** Each pid of the walk is the parent of the one before it, none repeats
      or was visited before, and the walk ends at a pid whose lookup fails,
      whose parent is 0, or whose parent was already visited. */
  lemma {:induction false} AncestorChainShape(table: ProcessTable, pid: int, seen: set<int>)
    requires pid !in seen
    ensures var chain := AncestorChain(table, pid, seen);
            (forall i :: 0 <= i < |chain| - 1 ==> chain[i] in table && table[chain[i]].ppid == chain[i + 1]) &&
            (forall i :: 0 <= i < |chain| ==> chain[i] !in seen) &&
            (forall i, j :: 0 <= i < j < |chain| ==> chain[i] != chain[j]) &&
            var last := chain[|chain| - 1];
            last !in table || table[last].ppid == 0 || table[last].ppid in seen || table[last].ppid in chain
    decreases |table.Keys - seen|
  {
    var chain := AncestorChain(table, pid, seen);
    if pid in table {
      var parent := table[pid].ppid;
      if !(parent in seen + {pid} || parent == 0) {
        RemoveOneKey(table.Keys, seen, pid);
        var tail := AncestorChain(table, parent, seen + {pid});
        AncestorChainShape(table, parent, seen + {pid});
        assert chain == [pid] + tail;
        assert forall i :: 1 <= i < |chain| ==> chain[i] == tail[i - 1];
      }
    }
  }

  /** The walk stops at the first parent that is 0: no pid after the first is 0. */
  lemma {:induction false} AncestorChainStopsAtZero(table: ProcessTable, pid: int, seen: set<int>)
    requires pid !in seen
    ensures forall i :: 0 < i < |AncestorChain(table, pid, seen)| ==> AncestorChain(table, pid, seen)[i] != 0
    decreases |table.Keys - seen|
  {
    if pid in table {
      var parent := table[pid].ppid;
      if !(parent in seen + {pid} || parent == 0) {
        RemoveOneKey(table.Keys, seen, pid);
        var tail := AncestorChain(table, parent, seen + {pid});
        AncestorChainStopsAtZero(table, parent, seen + {pid});
        assert AncestorChain(table, pid, seen) == [pid] + tail;
      }
    }
  }

  function Elems(s: seq<int>): set<int> {
    set x | x in s
  }

  lemma ElemsSnoc(s: seq<int>, x: int)
    ensures Elems(s + [x]) == Elems(s) + {x}
  {
  }

  /** `my_pid_list` once the walk from the scheduler's own pid has ended: it
      holds that pid, and 0 only when that pid is 0. */
  function AncestorPids(table: ProcessTable, myPid: int): (r: set<int>)
    ensures myPid in r
    ensures 0 in r ==> myPid == 0
  {
    var chain := AncestorChain(table, myPid, {});
    AncestorChainStopsAtZero(table, myPid, {});
    assert forall x :: x in chain && x != myPid ==> x != 0 by {
      forall x | x in chain && x != myPid ensures x != 0 {
        var i :| 0 <= i < |chain| && chain[i] == x;
        assert i != 0;
      }
    }
    Elems(chain)
  }

  /** The ancestor walk: the `while True` loop of `is_process_running`. */
  method WalkAncestors(table: ProcessTable, myPid: int) returns (ancestors: set<int>)
    ensures ancestors == AncestorPids(table, myPid)
  {
    ghost var chain := AncestorChain(table, myPid, {});
    ghost var walked: seq<int> := [];
    ancestors := {};
    var pid := myPid;
    while true
      invariant pid !in ancestors
      invariant ancestors == Elems(walked)
      invariant chain == walked + AncestorChain(table, pid, ancestors)
      decreases |table.Keys - ancestors|
    {
      ghost var before, walkedBefore := ancestors, walked;
      ancestors := ancestors + {pid};
      walked := walked + [pid];
      ElemsSnoc(walkedBefore, pid);
      if pid !in table {
        // psutil.Process(pid) raised: the walk ends
        ChainEnds(table, pid, before);
        break;
      }
      var parent := table[pid].ppid;
      if parent in ancestors || parent == 0 {
        ChainEnds(table, pid, before);
        break;
      }
      ChainGoesOn(table, pid, before, walkedBefore);
      pid := parent;
    }
  }

  lemma ChainEnds(table: ProcessTable, pid: int, seen: set<int>)
    requires pid !in seen
    requires pid !in table || table[pid].ppid in seen + {pid} || table[pid].ppid == 0
    ensures AncestorChain(table, pid, seen) == [pid]
  {
  }

  lemma ChainGoesOn(table: ProcessTable, pid: int, seen: set<int>, walked: seq<int>)
    requires pid !in seen && pid in table
    requires table[pid].ppid !in seen + {pid} && table[pid].ppid != 0
    ensures |table.Keys - (seen + {pid})| < |table.Keys - seen|
    ensures walked + AncestorChain(table, pid, seen) ==
            (walked + [pid]) + AncestorChain(table, table[pid].ppid, seen + {pid})
  {
    RemoveOneKey(table.Keys, seen, pid);
  }

  /** The walk's set holds the scheduler's own pid; it holds the parent of
      every member whose parent could be read and is not 0; and every other
      member is the parent of a member. */
  lemma AncestorPidsClosed(table: ProcessTable, myPid: int)
    ensures myPid in AncestorPids(table, myPid)
    ensures forall x :: x in AncestorPids(table, myPid) && x in table && table[x].ppid != 0 ==>
              table[x].ppid in AncestorPids(table, myPid)
    ensures forall x :: x in AncestorPids(table, myPid) && x != myPid ==>
              exists y :: y in AncestorPids(table, myPid) && y in table && table[y].ppid == x
  {
    var chain := AncestorChain(table, myPid, {});
    AncestorChainShape(table, myPid, {});
    forall x | x in AncestorPids(table, myPid) && x in table && table[x].ppid != 0
      ensures table[x].ppid in AncestorPids(table, myPid)
    {
      var i :| 0 <= i < |chain| && chain[i] == x;
      if i < |chain| - 1 {
        assert chain[i + 1] == table[x].ppid;
      }
    }
    forall x | x in AncestorPids(table, myPid) && x != myPid
      ensures exists y :: y in AncestorPids(table, myPid) && y in table && table[y].ppid == x
    {
      var i :| 0 <= i < |chain| && chain[i] == x;
      assert i > 0;
      assert chain[i - 1] in AncestorPids(table, myPid);
    }
  }

  /** The command line of a process names this script and Python, ignoring
      case. An empty command line never matches. */
  predicate MatchesSignature(cmdline: seq<string>, scriptName: string)
    ensures MatchesSignature(cmdline, scriptName) ==> |cmdline| > 0
  {
    var line := Lower(Join(cmdline, " "));
    Contains(line, Lower(scriptName)) && Contains(line, "python")
  }

  /** `pid` is counted as another running scheduler. */
  predicate IsOtherInstance(table: ProcessTable, ancestors: set<int>, scriptName: string, pid: int)
    ensures IsOtherInstance(table, ancestors, scriptName, pid) ==>
              pid !in ancestors && pid in table && |table[pid].cmdline| > 0
  {
    pid !in ancestors && pid in table && MatchesSignature(table[pid].cmdline, scriptName)
  }

  /** No element occurs twice. */
  predicate Distinct(s: seq<int>) {
    forall i, j :: 0 <= i < j < |s| ==> s[i] != s[j]
  }

  /** The pids of `pids` counted as other running schedulers, in order; a
      pid listed once is counted once. */
  function OtherInstances(table: ProcessTable, pids: seq<int>, ancestors: set<int>, scriptName: string): (r: seq<int>)
    ensures |r| <= |pids|
    ensures forall p :: p in r <==> p in pids && IsOtherInstance(table, ancestors, scriptName, p)
    ensures Distinct(pids) ==> Distinct(r)
    decreases |pids|
  {
    if |pids| == 0 then []
    else
      var init, p := pids[..|pids| - 1], pids[|pids| - 1];
      assert pids == init + [p];
      var before := OtherInstances(table, init, ancestors, scriptName);
      var r := before + (if IsOtherInstance(table, ancestors, scriptName, p) then [p] else []);
      assert Distinct(pids) ==> Distinct(r) by {
        if Distinct(pids) {
          assert Distinct(init) by {
            forall i, j | 0 <= i < j < |init| ensures init[i] != init[j] {
              assert init[i] == pids[i] && init[j] == pids[j];
            }
          }
          assert p !in init;
          assert p !in before;
        }
      }
      r
  }

  /** A sequence without repeats has as many elements as its set. */
  lemma {:induction false} DistinctCard(s: seq<int>)
    requires Distinct(s)
    ensures |Elems(s)| == |s|
  {
    if |s| > 0 {
      var init := s[..|s| - 1];
      assert s == init + [s[|s| - 1]];
      assert Distinct(init) by {
        forall i, j | 0 <= i < j < |init| ensures init[i] != init[j] {
          assert init[i] == s[i] && init[j] == s[j];
        }
      }
      DistinctCard(init);
      ElemsSnoc(init, s[|s| - 1]);
      assert s[|s| - 1] !in Elems(init);
    }
  }

  /** When `psutil.pids()` lists each pid once, the count is the number of
      distinct pids that qualify. */
  lemma CountIsNumberOfInstances(table: ProcessTable, pids: seq<int>, ancestors: set<int>, scriptName: string)
    requires Distinct(pids)
    ensures |OtherInstances(table, pids, ancestors, scriptName)| ==
            |set p | p in pids && IsOtherInstance(table, ancestors, scriptName, p)|
  {
    var r := OtherInstances(table, pids, ancestors, scriptName);
    DistinctCard(r);
    assert Elems(r) == set p | p in pids && IsOtherInstance(table, ancestors, scriptName, p);
  }

  /** The `for one_pid in psutil.pids()` loop of `is_process_running`. */
  method CountOtherInstances(table: ProcessTable, pids: seq<int>, ancestors: set<int>, scriptName: string)
    returns (count: nat)
    ensures count == |OtherInstances(table, pids, ancestors, scriptName)|
  {
    count := 0;
    var fileName := Lower(scriptName);
    for i := 0 to |pids|
      invariant count == |OtherInstances(table, pids[..i], ancestors, scriptName)|
    {
      assert pids[..i + 1][..i] == pids[..i];
      var pid := pids[i];
      if pid in ancestors {
        continue;
      }
      if pid !in table {
        // psutil.Process(pid).cmdline() raised: the pid is skipped
        continue;
      }
      var cmdLine := Lower(Join(table[pid].cmdline, " "));
      if Contains(cmdLine, fileName) && Contains(cmdLine, "python") {
        count := count + 1;
      }
    }
    assert pids[..|pids|] == pids;
  }

  /** `is_process_running()`: the number of other schedulers found. */
  method IsProcessRunning(table: ProcessTable, pids: seq<int>, myPid: int, scriptName: string)
    returns (count: nat)
    ensures count == |OtherInstances(table, pids, AncestorPids(table, myPid), scriptName)|
    ensures count <= |pids|
    ensures Distinct(pids) ==>
              count == |set p | p in pids && IsOtherInstance(table, AncestorPids(table, myPid), scriptName, p)|
  {
    var ancestors := WalkAncestors(table, myPid);
    count := CountOtherInstances(table, pids, ancestors, scriptName);
    if Distinct(pids) {
      CountIsNumberOfInstances(table, pids, ancestors, scriptName);
    }
  }

  /** The scheduler never counts itself, nor the process that started it
      when the scheduler's own lookup succeeds and gives a parent other than 0. */
  lemma NeverCountsItself(table: ProcessTable, pids: seq<int>, myPid: int, scriptName: string)
    ensures myPid !in OtherInstances(table, pids, AncestorPids(table, myPid), scriptName)
    ensures myPid in table && table[myPid].ppid != 0 ==>
              table[myPid].ppid !in OtherInstances(table, pids, AncestorPids(table, myPid), scriptName)
  {
    AncestorPidsClosed(table, myPid);
  }

  /** With the scheduler as pid 1000, started by pid 1 whose lookup fails, and
      a second scheduler as pid 2000, the walk collects {1000, 1} and one other
      instance is found. */
  lemma SecondSchedulerExample(table: ProcessTable, pids: seq<int>, scriptName: string)
    requires table == map[1000 := ProcessInfo(1, ["python", "my_cron.py"]),
                          2000 := ProcessInfo(1, ["python", "my_cron.py", "crontab.txt"])]
    requires pids == [1, 1000, 2000] && scriptName == "my_cron.py"
    ensures AncestorPids(table, 1000) == {1000, 1}
    ensures OtherInstances(table, pids, AncestorPids(table, 1000), scriptName) == [2000]
  {
    WalkExample(table);
    SecondSchedulerMatches(table[2000].cmdline, scriptName);
    CountExample(table, pids, {1000, 1}, scriptName);
  }

  lemma SecondSchedulerMatches(cmdline: seq<string>, scriptName: string)
    requires cmdline == ["python", "my_cron.py", "crontab.txt"] && scriptName == "my_cron.py"
    ensures MatchesSignature(cmdline, scriptName)
  {
    PythonIsPython(cmdline[0]);
    assert cmdline == [cmdline[0], scriptName] + cmdline[2..];
    PythonCommandMatches(cmdline[0], cmdline[2..], scriptName);
  }

  lemma WalkExample(table: ProcessTable)
    requires table == map[1000 := ProcessInfo(1, ["python", "my_cron.py"]),
                          2000 := ProcessInfo(1, ["python", "my_cron.py", "crontab.txt"])]
    ensures AncestorPids(table, 1000) == {1000, 1}
  {
    var start: set<int> := {};
    assert start + {1000} == {1000};
    assert AncestorChain(table, 1, {1000}) == [1];
    assert AncestorChain(table, 1000, {}) == [1000] + AncestorChain(table, 1, {1000}) == [1000, 1];
    assert Elems([1000, 1]) == {1000, 1};
  }

  lemma CountExample(table: ProcessTable, pids: seq<int>, ancestors: set<int>, scriptName: string)
    requires 2000 in table && MatchesSignature(table[2000].cmdline, scriptName)
    requires pids == [1, 1000, 2000] && ancestors == {1000, 1}
    ensures OtherInstances(table, pids, ancestors, scriptName) == [2000]
  {
    var p1, p2: seq<int> := [1], [1, 1000];
    assert p1[..0] == [] && p2[..1] == p1 && pids[..2] == p2;
    assert OtherInstances(table, p1, ancestors, scriptName) == [];
    assert OtherInstances(table, p2, ancestors, scriptName) == [];
  }

  /** A command line that starts with an interpreter whose name contains
      `python` in any case, followed by the script's name, matches the
      signature, whatever arguments follow. */
  lemma PythonCommandMatches(interp: string, args: seq<string>, scriptName: string)
    requires Contains(Lower(interp), "python")
    ensures MatchesSignature([interp, scriptName] + args, scriptName)
  {
    var cmdline := [interp, scriptName] + args;
    var rest := if |args| == 0 then "" else " " + Join(args, " ");
    var tail := scriptName + rest;
    if |args| == 0 {
      assert [scriptName] + args == [scriptName];
    } else {
      JoinCons(scriptName, args, " ");
    }
    assert Join([scriptName] + args, " ") == tail;
    assert cmdline == [interp] + ([scriptName] + args);
    JoinCons(interp, [scriptName] + args, " ");
    assert Join(cmdline, " ") == interp + (" " + tail);
    LowerConcat(interp, " " + tail);
    LowerConcat(" ", tail);
    LowerConcat(scriptName, rest);
    ContainsItself(Lower(scriptName));
    ContainsInConcat(Lower(scriptName), Lower(rest), Lower(scriptName));
    ContainsInConcat(Lower(" "), Lower(tail), Lower(scriptName));
    ContainsInConcat(Lower(interp), Lower(" " + tail), Lower(scriptName));
    ContainsInConcat(Lower(interp), Lower(" " + tail), "python");
  }

  /** `python` names Python. */
  lemma PythonIsPython(interp: string)
    requires interp == "python"
    ensures Contains(Lower(interp), "python")
  {
    assert Lower(interp) == interp;
    ContainsItself(interp);
  }
}
