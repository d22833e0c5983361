/** One pass of `main_loop` in contab-windows/my_cron.py: every line of the
    schedule file is parsed and checked against the time, and the commands of
    the due lines are dispatched in file order. The `try` surrounds the whole
    loop, so the first field error ends the pass. */
module Poll {
  import opened Text
  import opened Cron

  /** What the loop does with one line: nothing (a short line, or an entry that
      is not due), dispatch its command, or leave the pass with an error. */
  datatype LineResult = Skip | Run(command: string) | Fail(error: FieldError)

  /** The commands a pass dispatched, in order, and the error that ended it early, if any. */
  datatype PassOutcome = PassOutcome(dispatched: seq<string>, failure: Option<FieldError>)

  function LineOutcome(line: string, t: Timestamp): (r: LineResult)
    ensures r.Fail? ==> ParseCronLine(line).Some?
    ensures r.Run? ==> ParseCronLine(line).Some? && r.command == ParseCronLine(line).value.command
  {
    match ParseCronLine(line)
    case None => Skip
    case Some(e) =>
      match IsTimeToRun(Some(e.schedule), t)
      case Err(err) => Fail(err)
      case Ok(due) => if due then Run(e.command) else Skip
  }

  /** A line with fewer than six tokens is skipped; a line is dispatched
      exactly when it parses and its schedule is due, with its command tokens
      joined by single spaces; it fails exactly when it parses and a field
      check raises. */
  lemma LineOutcomeMeaning(line: string, t: Timestamp)
    ensures |Tokens(line)| < 6 ==> LineOutcome(line, t) == Skip
    ensures LineOutcome(line, t).Run? <==>
              ParseCronLine(line).Some? && IsTimeToRun(Some(ParseCronLine(line).value.schedule), t) == Ok(true)
    ensures LineOutcome(line, t).Run? ==>
              LineOutcome(line, t).command == Join(Tokens(line)[5..], " ") &&
              IsTimeToRun(Some(ParseCronLine(line).value.schedule), t) == Ok(true)
    ensures LineOutcome(line, t).Fail? <==>
              ParseCronLine(line).Some? && IsTimeToRun(Some(ParseCronLine(line).value.schedule), t).Err?
  {
    var entry := ParseCronLine(line);
    if entry.Some? {
      var due := IsTimeToRun(Some(entry.value.schedule), t);
      assert LineOutcome(line, t) == (match due case Err(e) => Fail(e) case Ok(d) => if d then Run(entry.value.command) else Skip);
    }
  }

  /** `LineOutcome` at time `t`, as a function of the line. */
  function LineOutcomeAt(t: Timestamp): string -> LineResult {
    line => LineOutcome(line, t)
  }

  /** `f` applied to each element of `s`, in order. */
  function MapSeq<A, B>(s: seq<A>, f: A -> B): (r: seq<B>)
    ensures |r| == |s|
    ensures forall i :: 0 <= i < |s| ==> r[i] == f(s[i])
  {
    seq(|s|, i requires 0 <= i < |s| => f(s[i]))
  }

  lemma MapSeqConcat<A, B>(a: seq<A>, b: seq<A>, f: A -> B)
    ensures MapSeq(a + b, f) == MapSeq(a, f) + MapSeq(b, f)
  {
    var l, r := MapSeq(a + b, f), MapSeq(a, f) + MapSeq(b, f);
    forall i | 0 <= i < |a + b| ensures l[i] == r[i] {
      if i < |a| {
        assert (a + b)[i] == a[i];
      } else {
        assert (a + b)[i] == b[i - |a|];
      }
    }
  }

  /** The result of each line of the file, in order. */
  function Outcomes(lines: seq<string>, t: Timestamp): seq<LineResult> {
    MapSeq(lines, LineOutcomeAt(t))
  }

  /** The loop over line results, from the first: it stops at the first failure. */
  function Fold(rs: seq<LineResult>): (r: PassOutcome)
    ensures |r.dispatched| <= |rs|
    ensures r.failure.Some? ==> exists i :: 0 <= i < |rs| && rs[i] == Fail(r.failure.value)
    decreases |rs|
  {
    if |rs| == 0 then PassOutcome([], None)
    else Step(Fold(rs[..|rs| - 1]), rs[|rs| - 1])
  }

  /** One round of the loop: nothing more happens once the pass has failed. */
  function Step(before: PassOutcome, r: LineResult): (after: PassOutcome)
    ensures before.failure.Some? ==> after == before
    ensures |before.dispatched| <= |after.dispatched| <= |before.dispatched| + 1
    ensures after.dispatched[..|before.dispatched|] == before.dispatched
    ensures after.failure.Some? ==> before.failure.Some? || r == Fail(after.failure.value)
  {
    if before.failure.Some? then before
    else
      match r
      case Skip => before
      case Run(c) => PassOutcome(before.dispatched + [c], None)
      case Fail(err) => PassOutcome(before.dispatched, Some(err))
  }

  lemma FoldPrefix(rs: seq<LineResult>, i: nat)
    requires i < |rs|
    ensures Fold(rs[..i + 1]) == Step(Fold(rs[..i]), rs[i])
  {
    assert rs[..i + 1][..i] == rs[..i];
  }

  /** The outcome of one pass over the lines of the schedule file at time `t`. */
  function Pass(lines: seq<string>, t: Timestamp): (r: PassOutcome)
    ensures |r.dispatched| <= |lines|
    ensures r.failure.Some? ==> exists i :: 0 <= i < |lines| && Outcomes(lines, t)[i] == Fail(r.failure.value)
  {
    Fold(Outcomes(lines, t))
  }

  /** The body of one `while True` round of `main_loop`, without the file
      read, the dispatch itself and the sleep. */
  method PollPass(lines: seq<string>, t: Timestamp) returns (dispatched: seq<string>, failure: Option<FieldError>)
    ensures PassOutcome(dispatched, failure) == Pass(lines, t)
  {
    ghost var rs := Outcomes(lines, t);
    dispatched, failure := [], None;
    for i := 0 to |lines|
      invariant failure.None?
      invariant PassOutcome(dispatched, failure) == Fold(rs[..i])
    {
      FoldPrefix(rs, i);
      match LineOutcome(lines[i], t)
      case Skip =>
      case Run(command) =>
        dispatched := dispatched + [command];
      case Fail(error) =>
        // the `except` around the loop: the rest of the file waits for the next pass
        failure := Some(error);
        FoldStopsAtFailure(rs[..i + 1], rs[i + 1..]);
        TakeDrop(rs, i + 1);
        return;
    }
    assert rs[..|lines|] == rs;
  }

  lemma TakeDrop<T>(s: seq<T>, i: nat)
    requires i <= |s|
    ensures s[..i] + s[i..] == s
  {
  }

  /** Once a line has failed, the lines after it are not looked at. */
  lemma {:induction false} FoldStopsAtFailure(rs: seq<LineResult>, rest: seq<LineResult>)
    requires Fold(rs).failure.Some?
    ensures Fold(rs + rest) == Fold(rs)
    decreases |rest|
  {
    if |rest| > 0 {
      var init := rest[..|rest| - 1];
      FoldStopsAtFailure(rs, init);
      assert (rs + rest)[..|rs + rest| - 1] == rs + init;
    } else {
      assert rs + rest == rs;
    }
  }

  /** A pass that gets through some lines without an error goes on with the
      next ones as a pass of its own would, after the commands it has already
      dispatched. */
  lemma {:induction false} FoldConcat(rs: seq<LineResult>, rest: seq<LineResult>)
    requires Fold(rs).failure.None?
    ensures Fold(rs + rest) == PassOutcome(Fold(rs).dispatched + Fold(rest).dispatched, Fold(rest).failure)
    decreases |rest|
  {
    if |rest| == 0 {
      assert rs + rest == rs;
    } else {
      var init := rest[..|rest| - 1];
      FoldConcat(rs, init);
      assert (rs + rest)[..|rs + rest| - 1] == rs + init;
      assert (rs + rest)[|rs + rest| - 1] == rest[|rest| - 1];
      var d0, d1 := Fold(rs).dispatched, Fold(init).dispatched;
      if rest[|rest| - 1].Run? {
        assert d0 + (d1 + [rest[|rest| - 1].command]) == (d0 + d1) + [rest[|rest| - 1].command];
      }
    }
  }

  /** The commands of the results that dispatch, in order. */
  function RunCommands(rs: seq<LineResult>): seq<string>
    decreases |rs|
  {
    if |rs| == 0 then []
    else RunCommands(rs[..|rs| - 1]) + (if rs[|rs| - 1].Run? then [rs[|rs| - 1].command] else [])
  }

  /** Result `k` is the first failure. */
  predicate FirstFailure(rs: seq<LineResult>, k: int) {
    0 <= k < |rs| && rs[k].Fail? && forall j :: 0 <= j < k ==> !rs[j].Fail?
  }

  /** A pass dispatches, in file order, the commands of the due lines that come
      before the first failing line, and reports that line's error; with no
      failing line it dispatches the commands of all due lines. */
  lemma {:induction false} FoldUpToFirstFailure(rs: seq<LineResult>)
    ensures (forall i :: 0 <= i < |rs| ==> !rs[i].Fail?) ==> Fold(rs) == PassOutcome(RunCommands(rs), None)
    ensures forall k :: FirstFailure(rs, k) ==> Fold(rs) == PassOutcome(RunCommands(rs[..k]), Some(rs[k].error))
    decreases |rs|
  {
    if |rs| > 0 {
      var n := |rs| - 1;
      var init := rs[..n];
      FoldUpToFirstFailure(init);
      assert forall i :: 0 <= i < n ==> init[i] == rs[i];
      forall k | FirstFailure(rs, k)
        ensures Fold(rs) == PassOutcome(RunCommands(rs[..k]), Some(rs[k].error))
      {
        if k < n {
          assert FirstFailure(init, k);
          assert init[..k] == rs[..k];
        } else {
          assert init == rs[..k];
        }
      }
    }
  }

  /** The commands of the lines that parse and are due at `t`, in file order. */
  function DueCommands(lines: seq<string>, t: Timestamp): seq<string>
    decreases |lines|
  {
    if |lines| == 0 then []
    else
      var line := lines[|lines| - 1];
      var entry := ParseCronLine(line);
      DueCommands(lines[..|lines| - 1], t) +
        (if entry.Some? && IsTimeToRun(Some(entry.value.schedule), t) == Ok(true) then [entry.value.command] else [])
  }

  /** The `Run` outcomes of the lines are exactly their due commands. */
  lemma {:induction false} RunCommandsAreDue(lines: seq<string>, t: Timestamp)
    ensures RunCommands(Outcomes(lines, t)) == DueCommands(lines, t)
    decreases |lines|
  {
    if |lines| > 0 {
      var n := |lines| - 1;
      var rs := Outcomes(lines, t);
      assert rs[..n] == Outcomes(lines[..n], t);
      RunCommandsAreDue(lines[..n], t);
      LineOutcomeMeaning(lines[n], t);
    }
  }

  /** A pass over the lines of a file dispatches, in file order, the commands
      of the due lines before the first line whose check raises, and reports
      that line's error; with no such line it dispatches the commands of all
      due lines. */
  lemma PassDispatchesDueLines(lines: seq<string>, t: Timestamp)
    ensures (forall i :: 0 <= i < |lines| ==> !Outcomes(lines, t)[i].Fail?) ==>
              Pass(lines, t) == PassOutcome(DueCommands(lines, t), None)
    ensures forall k :: FirstFailure(Outcomes(lines, t), k) ==>
              Pass(lines, t) == PassOutcome(DueCommands(lines[..k], t), Some(Outcomes(lines, t)[k].error))
  {
    var rs := Outcomes(lines, t);
    FoldUpToFirstFailure(rs);
    RunCommandsAreDue(lines, t);
    forall k | FirstFailure(rs, k)
      ensures Pass(lines, t) == PassOutcome(DueCommands(lines[..k], t), Some(rs[k].error))
    {
      assert rs[..k] == Outcomes(lines[..k], t);
      RunCommandsAreDue(lines[..k], t);
    }
  }

  lemma OutcomesConcat(a: seq<string>, b: seq<string>, t: Timestamp)
    ensures Outcomes(a + b, t) == Outcomes(a, t) + Outcomes(b, t)
  {
    MapSeqConcat(a, b, LineOutcomeAt(t));
  }

  /** The pass over two parts of a file is the pass over the first part,
      followed, when it ended normally, by the pass over the second. */
  lemma PassConcat(a: seq<string>, b: seq<string>, t: Timestamp)
    ensures Pass(a, t).failure.Some? ==> Pass(a + b, t) == Pass(a, t)
    ensures Pass(a, t).failure.None? ==>
              Pass(a + b, t) == PassOutcome(Pass(a, t).dispatched + Pass(b, t).dispatched, Pass(b, t).failure)
  {
    OutcomesConcat(a, b, t);
    if Pass(a, t).failure.Some? {
      FoldStopsAtFailure(Outcomes(a, t), Outcomes(b, t));
    } else {
      FoldConcat(Outcomes(a, t), Outcomes(b, t));
    }
  }
}
