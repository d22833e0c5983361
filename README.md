# A verified model of the crontab-windows scheduler core

`contab-windows/my_cron.py` is a small cron replacement for Windows. It reads
a crontab-style file once a minute. It parses each line into five time fields
and a command, and it runs the commands whose fields match the current time.
At start-up it refuses to run when another copy of itself is already running.

This project models that core in Dafny and proves what it does:

- `text.dfy` (module `Text`) holds the Python string operations the core relies
  on. These are `str.split(sep)`, `str.split()` and `str.strip()` over Python's
  whitespace set, `sep.join`, `str.replace`, the `in` substring test,
  `str.lower` and `int()` on text. Each comes with the round trips the parser
  needs.
- `cron.dfy` (module `Cron`) holds three functions:
  - `parse_cron_line` becomes `ParseCronLine`. It returns an `Option` where the
    source returns `(None, None)`.
  - `is_within_range` becomes `IsWithinRange` over `MatchParts`/`MatchPart`.
    Every `ValueError` and `ZeroDivisionError` the source can raise is an
    explicit `Err` result.
  - `is_time_to_run` becomes `IsTimeToRun`. The current time is a `Timestamp`
    parameter.
- `poll.dfy` (module `Poll`) holds one pass of `main_loop` over the lines of
  the file, as the imperative method `PollPass`. The `try` of `main_loop`
  encloses the whole `for` loop, so the first field error ends the pass. The
  pass reports the commands it dispatched, in order, and that error if one
  occurred.
- `guard.dfy` (module `InstanceGuard`) holds `is_process_running`. The
  operating system's process table is a parameter: a map from pid to parent
  pid and command line, where a missing pid is one whose lookup raised. There
  are two imperative methods. `WalkAncestors` is the `while True` walk up the
  parent chain. `CountOtherInstances` is the `for` loop over all pids.

Weekdays follow `datetime.weekday()`, which counts Monday as 0. A weekday field
`1-5` is therefore due from Tuesday to Saturday, not from Monday to Friday as
in classic cron. `Cron.WeekdayBackupSchedule` states this for the line
`0 9 * * 1-5 backup.sh`.

In a range part, `start, end = map(int, part.split('-'))` unpacks a lazy
`map`. Python converts the first two pieces and then a third one, if there is
one, before it reports too many values. A range with a non-integer third
piece therefore raises the conversion error of that piece. `Cron.MatchPart`
follows the code on this point.

## Model

| member | source | states |
|---|---|---|
| `Text.Split` | contab-windows/my_cron.py:74 | `s.split(sep)` yields at least one piece, no piece contains the separator, and there are two or more pieces exactly when the separator occurs |
| `Text.JoinSplit` | contab-windows/my_cron.py:74 | joining the pieces of `s.split(sep)` with `sep` gives `s` back |
| `Text.SplitJoin` | contab-windows/my_cron.py:74 | splitting a `sep`-join of separator-free pieces gives the pieces back |
| `Text.Join` | contab-windows/my_cron.py:27 | `sep.join` of no pieces is empty and of one piece is that piece |
| `Text.JoinLength` | contab-windows/my_cron.py:27 | a join is as long as its pieces together plus one separator between each two |
| `Text.Tokens` | contab-windows/my_cron.py:24 | every token of `s.split()` is non-empty and free of whitespace |
| `Text.TokensAtSpace` | contab-windows/my_cron.py:24 | a whitespace character separates tokens: `(a + c + b).split()` is `a.split()` followed by `b.split()` |
| `Text.Strip` | contab-windows/my_cron.py:24 | `s.strip()` is no longer than `s` and neither starts nor ends with whitespace |
| `Text.StripIsSlice` | contab-windows/my_cron.py:24 | `s.strip()` is a slice of `s`, and only whitespace lies before and after it |
| `Text.TokensStrip` | contab-windows/my_cron.py:24 | `s.strip().split()` has the same tokens as `s.split()` |
| `Text.TokensJoin` | contab-windows/my_cron.py:27 | splitting a single-space join of non-empty, whitespace-free words gives the words back |
| `Text.Replace` | contab-windows/my_cron.py:30-34 | `s.replace(c, rep)` is the pieces of `s.split(c)` joined with `rep`; after replacing `c` by a text without `c`, no `c` is left; a text without `c` is unchanged |
| `Text.Lower` | contab-windows/my_cron.py:159 | `lower()` keeps the length and lower-cases each character |
| `Text.LowerConcat` | contab-windows/my_cron.py:159 | lower-casing a concatenation lower-cases each part |
| `Text.Contains` | contab-windows/my_cron.py:160 | the empty text is in every text, and no text is in a shorter one |
| `Text.ContainsInConcat` | contab-windows/my_cron.py:160 | a text found in either part of a concatenation is found in the whole |
| `Text.ParseInt` | contab-windows/my_cron.py:76-83 | `int(s)` succeeds exactly on an optional sign followed by decimal digits |
| `Text.ParseIntDecimal` | contab-windows/my_cron.py:76-83 | `int(str(i)) == i` for every integer |
| `Cron.Expand` | contab-windows/my_cron.py:30-34 | an expanded field token is the pieces between its `*`s joined with the field's full range; it holds no `*`, and a token without `*` is left as it is |
| `Cron.ExpandOneWildcard` | contab-windows/my_cron.py:30-34 | a single `*` is replaced in place by the field's range, so `*/15` in the minute field reads `0-59/15` |
| `Cron.ExpandSchedule` | contab-windows/my_cron.py:30-42 | the schedule built from the first five tokens holds no `*` in any field, and a token without `*` is kept as it is |
| `Cron.ParseCronLine` | contab-windows/my_cron.py:20-44 | a line is rejected exactly when it has fewer than 6 whitespace-separated tokens; otherwise the five fields are the first five tokens with `*` expanded and hold no `*`, and the command is tokens 6 onward joined by single spaces, whose own tokens are those tokens |
| `Cron.ParseFormatted` | contab-windows/my_cron.py:24-44 | five field tokens and command words joined by single spaces parse back into the expanded fields and the space-joined command |
| `Cron.BackupLineParses` | contab-windows/my_cron.py:20-44 | the line `0 9 * * 1-5 backup.sh` parses into `0`, `9`, `1-31`, `1-12`, `1-5` and the command `backup.sh` |
| `Cron.MatchPart` | contab-windows/my_cron.py:75-84 | one part raises a division by zero only when it has a `/`, and too many values only when it has a `-` and no `/` |
| `Cron.MatchParts` | contab-windows/my_cron.py:74-85 | the loop over the parts matches or raises only with the result of one of its parts |
| `Cron.IsWithinRange` | contab-windows/my_cron.py:68-85 | a field without a comma is matched as a single part |
| `Cron.MatchPartsFirstDecides` | contab-windows/my_cron.py:74-85 | a comma list fails to match exactly when every part fails to match; otherwise the first part that matches or raises decides, and later parts are never looked at |
| `Cron.ListMatchesAnyPart` | contab-windows/my_cron.py:74-85 | when no part raises, a list matches exactly when some part matches |
| `Cron.WithinRangeOfList` | contab-windows/my_cron.py:74 | a field written as comma-joined parts is matched part by part, in order |
| `Cron.StepPart` | contab-windows/my_cron.py:75-78 | a step part depends only on the text between its first and second `/`: a non-integer there raises, 0 raises a division by zero, any other integer matches exactly its multiples |
| `Cron.StepIgnoresStart` | contab-windows/my_cron.py:71-76 | whatever stands before the first `/` is ignored: `1-10/2` acts as `*/2` |
| `Cron.DividesIffModZero` | contab-windows/my_cron.py:77 | for a non-zero divisor `d`, `v % d == 0` holds exactly when `v` is a multiple of `d`, for a negative `d` too |
| `Cron.StepMatchesMultiples` | contab-windows/my_cron.py:75-78 | `*/N` matches exactly the multiples of `N`, and `*/0` raises a division by zero |
| `Cron.RangePart` | contab-windows/my_cron.py:79-82 | `a-b` converts `a` and then `b`, raising at the first that is not an integer, and otherwise matches exactly the values from `a` to `b` inclusive |
| `Cron.RangeMatchesInterval` | contab-windows/my_cron.py:79-82 | the range of two numerals matches exactly the values between them, inclusive |
| `Cron.RangeWithThreePiecesRaises` | contab-windows/my_cron.py:80 | a range with a third piece raises: the third piece's conversion error when it is not an integer, too many values when it is |
| `Cron.PlainMatchesItself` | contab-windows/my_cron.py:79-84 | a plain number matches only itself; a negative one is read as a range with an empty start and raises |
| `Cron.WildcardMatchesFullRange` | contab-windows/my_cron.py:30-34 | an expanded `*` matches every value of its field's natural range and nothing outside it |
| `Cron.FieldChecks` | contab-windows/my_cron.py:55-63 | `is_time_to_run` makes exactly five checks, the `is_within_range` calls on the minute, hour, day, month and weekday in that order |
| `Cron.FirstDecision` | contab-windows/my_cron.py:55-65 | the checks in order give `True` exactly when every check gives `True` |
| `Cron.IsTimeToRun` | contab-windows/my_cron.py:48-65 | a missing schedule is never due; a schedule is due exactly when the minute, hour, day, month and weekday checks all match |
| `Cron.FirstMismatchDecides` | contab-windows/my_cron.py:55-64 | when the checks do not all match, the first check that does not match decides: it raises if it raised, and gives `False` otherwise |
| `Cron.TimeToRunFirstMismatch` | contab-windows/my_cron.py:55-64 | a later field's error is raised only if every earlier field matched |
| `Cron.DailyAtSchedule` | contab-windows/my_cron.py:48-85 | the schedule `m h 1-31 1-12 1-w` is due exactly at minute `m` of hour `h` on weekdays 1 to `w` |
| `Cron.WeekdayBackupSchedule` | contab-windows/my_cron.py:48-65 | `0 9 * * 1-5` is due exactly at 09:00 from Tuesday (1) to Saturday (5), Monday being 0 |
| `Poll.LineOutcome` | contab-windows/my_cron.py:117-124 | a line is dispatched or fails only when it parses, and it is dispatched with its parsed command |
| `Poll.LineOutcomeMeaning` | contab-windows/my_cron.py:117-124 | a line of fewer than six tokens is skipped; a line is dispatched exactly when it parses and its schedule is due, with its tokens from the sixth on joined by single spaces as the command; a line fails exactly when it parses and a field check raises |
| `Poll.Step` | contab-windows/my_cron.py:117-125 | once the pass has failed, a line changes nothing; otherwise a line adds at most one command at the end of those dispatched, and a new error is that line's error |
| `Poll.Fold` | contab-windows/my_cron.py:117-124 | the loop dispatches at most one command per line, and an error it ends with is the error of one of the lines |
| `Poll.Pass` | contab-windows/my_cron.py:111-127 | a pass dispatches at most one command per line of the file, and an error it ends with is the error of one of its lines at time `t` |
| `Poll.PollPass` | contab-windows/my_cron.py:111-127 | one pass over the lines gives the outcome `Pass` defines: the dispatched commands in order, and the error that ended the pass, if any |
| `Poll.FoldStopsAtFailure` | contab-windows/my_cron.py:111-127 | once a line has raised, the lines after it change nothing |
| `Poll.FoldConcat` | contab-windows/my_cron.py:113-124 | a pass that gets through some lines without an error continues over the next lines as a pass of its own would |
| `Poll.FoldUpToFirstFailure` | contab-windows/my_cron.py:113-124 | a pass dispatches, in order, the commands of the due lines before the first failing line and reports that line's error; with no failing line it dispatches the commands of all due lines |
| `Poll.RunCommandsAreDue` | contab-windows/my_cron.py:117-124 | the commands of the lines whose outcome is a dispatch are, in file order, the commands of the lines that parse and are due |
| `Poll.PassDispatchesDueLines` | contab-windows/my_cron.py:111-127 | a pass over the lines of a file at time `t` dispatches, in file order, the commands of the lines that parse and are due before the first line whose check raises, and reports that line's error; with no such line it dispatches the commands of all lines that parse and are due |
| `Poll.PassConcat` | contab-windows/my_cron.py:111-127 | a pass over two parts of a file is the pass over the first part, followed by the pass over the second when the first ended without an error |
| `InstanceGuard.AncestorChain` | contab-windows/my_cron.py:139-146 | the walk from a pid starts at that pid |
| `InstanceGuard.AncestorChainShape` | contab-windows/my_cron.py:139-146 | each pid of the walk is the parent of the one before it; no pid repeats; the walk ends at a pid whose lookup fails, whose parent is 0, or whose parent was already visited |
| `InstanceGuard.AncestorChainStopsAtZero` | contab-windows/my_cron.py:142-146 | the walk stops at the first parent that is 0: no pid after the first one is 0 |
| `InstanceGuard.AncestorPids` | contab-windows/my_cron.py:136-148 | the walk's set holds the scheduler's own pid, and holds 0 only when that pid is 0 |
| `InstanceGuard.WalkAncestors` | contab-windows/my_cron.py:136-148 | the `while True` loop collects exactly the pids of the walk from the scheduler's own pid, and it terminates |
| `InstanceGuard.AncestorPidsClosed` | contab-windows/my_cron.py:136-148 | the walk's set holds the scheduler's own pid and the parent of every member whose parent could be read and is not 0, and every other member is the parent of a member |
| `InstanceGuard.MatchesSignature` | contab-windows/my_cron.py:159-160 | a command line that matches has at least one argument |
| `InstanceGuard.IsOtherInstance` | contab-windows/my_cron.py:153-160 | a pid taken for another scheduler is outside the walk's set, can be read, and has a non-empty command line |
| `InstanceGuard.OtherInstances` | contab-windows/my_cron.py:150-164 | a pid is counted exactly when it is enumerated, is not in the walk's set, can be read, and its lower-cased command line contains both the lower-cased script name and `python`; no more pids are counted than are enumerated, and when no pid is enumerated twice none is counted twice |
| `InstanceGuard.CountIsNumberOfInstances` | contab-windows/my_cron.py:150-165 | when no pid is enumerated twice, the count is the number of distinct pids that qualify |
| `InstanceGuard.CountOtherInstances` | contab-windows/my_cron.py:150-165 | the `for` loop counts exactly those pids |
| `InstanceGuard.IsProcessRunning` | contab-windows/my_cron.py:131-165 | `is_process_running` returns the number of those pids for the walk's set, at most the number of enumerated pids, and, when no pid is enumerated twice, the number of distinct qualifying pids |
| `InstanceGuard.NeverCountsItself` | contab-windows/my_cron.py:141-153 | the scheduler never counts itself, nor its parent when the scheduler's own lookup succeeds and gives a parent other than 0 |
| `InstanceGuard.PythonCommandMatches` | contab-windows/my_cron.py:159-160 | a command line that starts with an interpreter whose name contains `python` in any case, followed by the script's name, matches, whatever arguments follow |
| `InstanceGuard.SecondSchedulerExample` | contab-windows/my_cron.py:131-165 | with the scheduler as pid 1000 under an unreadable pid 1 and a second scheduler as pid 2000, the walk collects {1000, 1} and only pid 2000 is counted |

## Left out

- `run_command` is not modelled. It starts the command through the shell, sleeps 0.2 s, polls the process, decodes its output as GBK and logs. All of this is operating-system I/O and timing. A pass reports the commands it would dispatch instead, and `run_command` catches its own exceptions, so a dispatch never ends a pass.
- The endless `while True` of `main_loop` is left out, as are its 60-second sleep, the reading of the file and the logging of errors. `PollPass` is one pass over the lines as given. An error while reading the file is not modelled.
- `datetime.now()` is replaced by a `Timestamp` parameter. As in the code, nothing checks that the date exists, such as day 31 of a 30-day month.
- `PollPass` checks every line of a pass against one time `t`. In the code, `is_time_to_run` reads `datetime.now()` anew for each line (my_cron.py:54), and each dispatch sleeps 0.2 s (my_cron.py:97). A pass can therefore cross a minute boundary, so that later lines are checked against a later minute. The model does not capture this.
- `psutil.Process`, `psutil.pids()`, `os.getpid()` and `os.path.basename(__file__)` become parameters: a process table, a pid list, a pid and a script name. The table is one snapshot, so processes that start or exit during the walk or the count are not modelled. Every `BaseException` raised by a lookup is a missing pid. Interrupts such as `KeyboardInterrupt` are not modelled.
- `Text.ParseInt`: accepts only an optional sign followed by ASCII digits. Python's `int()` also accepts underscores between digits and non-ASCII decimal digits, which this model rejects. CPython 3.11 and later, and patched 3.7 to 3.10, also raise `ValueError` for a numeral of more than 4300 digits; the model converts numerals of any length. Surrounding whitespace cannot occur, because fields come from whitespace-split tokens.
- `Text.Lower`: lower-cases ASCII letters only. Python's `str.lower()` also lower-cases letters outside ASCII.
- The `__main__` block is left out: the argument handling, the check that the file exists and the exit code. The logging configuration is left out too.
