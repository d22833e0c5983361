/** Schedule lines and the field language of contab-windows/my_cron.py:
    `parse_cron_line`, `is_within_range` and `is_time_to_run`. */
module Cron {
  import opened Text

  /** What `int()`, tuple unpacking and `%` raise while a field is matched. */
  datatype FieldError =
    | InvalidInt(text: string)  // ValueError from int(text)
    | TooManyValues             // ValueError from unpacking `a-b-c` into two names
    | ZeroDivision              // ZeroDivisionError from `v % 0`

  datatype Result<+T> = Ok(value: T) | Err(error: FieldError)

  /** The five time fields of a schedule line, in file order. */
  datatype Field = Minute | Hour | Day | Month | Weekday

  /** The range text a `*` in the field is replaced with. */
  function FullRange(f: Field): string {
    match f
    case Minute => "0-59"
    case Hour => "0-23"
    case Day => "1-31"
    case Month => "1-12"
    case Weekday => "0-6"
  }

  function Lo(f: Field): nat {
    match f
    case Minute => 0
    case Hour => 0
    case Day => 1
    case Month => 1
    case Weekday => 0
  }

  function Hi(f: Field): nat {
    match f
    case Minute => 59
    case Hour => 23
    case Day => 31
    case Month => 12
    case Weekday => 6
  }

  /** The dictionary `parse_cron_line` builds, one field text per key. */
  datatype Schedule = Schedule(mins: string, hours: string, days: string, months: string, weekdays: string)

  datatype CronEntry = CronEntry(schedule: Schedule, command: string)

  /** The parts of `datetime.now()` that are compared; `weekday` counts Monday as 0. */
  datatype Timestamp = Timestamp(minute: int, hour: int, day: int, month: int, weekday: int)

  // ---------------------------------------------------------------------------
  // parse_cron_line
  // ---------------------------------------------------------------------------

  /** A field token with every `*` replaced by the field's full range. */
  function Expand(token: string, f: Field): (r: string)
    ensures r == Join(Split(token, '*'), FullRange(f))
    ensures '*' !in r
    ensures '*' !in token ==> r == token
  {
    Replace(token, '*', FullRange(f))
  }

  // A `*` inside a token becomes the field's range in place: `*/15` reads
  // `0-59/15` and `5,*` reads `5,0-59` in the minute field.
  lemma ExpandOneWildcard(before: string, after: string, f: Field)
    requires '*' !in before && '*' !in after
    ensures Expand(before + "*" + after, f) == before + FullRange(f) + after
  {
    SplitConcat(before, after, '*');
    SplitNoSep(after, '*');
    assert [before] + [after] == [before, after];
    JoinCons(before, [after], FullRange(f));
  }

  /** The schedule of the first five tokens: no field holds a `*`, and a
      token without `*` is kept as it is. */
  function ExpandSchedule(tokens: seq<string>): (r: Schedule)
    requires |tokens| >= 5
    ensures NoWildcard(r)
    ensures '*' !in tokens[0] ==> r.mins == tokens[0]
    ensures '*' !in tokens[1] ==> r.hours == tokens[1]
    ensures '*' !in tokens[2] ==> r.days == tokens[2]
    ensures '*' !in tokens[3] ==> r.months == tokens[3]
    ensures '*' !in tokens[4] ==> r.weekdays == tokens[4]
  {
    Schedule(Expand(tokens[0], Minute), Expand(tokens[1], Hour), Expand(tokens[2], Day),
             Expand(tokens[3], Month), Expand(tokens[4], Weekday))
  }

  predicate NoWildcard(s: Schedule) {
    '*' !in s.mins && '*' !in s.hours && '*' !in s.days && '*' !in s.months && '*' !in s.weekdays
  }

  /** `parse_cron_line`: `None` stands for the `(None, None)` of a short line. */
  function ParseCronLine(line: string): (r: Option<CronEntry>)
    ensures r.None? <==> |Tokens(line)| < 6
    ensures r.Some? ==> r.value.schedule == ExpandSchedule(Tokens(line)) && NoWildcard(r.value.schedule)
    ensures r.Some? ==> r.value.command == Join(Tokens(line)[5..], " ")
    ensures r.Some? ==> Tokens(r.value.command) == Tokens(line)[5..]
  {
    var parts := Tokens(Strip(line));
    TokensStrip(line);
    assert parts == Tokens(line);
    if |parts| < 6 then None
    else
      var words := parts[5..];
      TokensJoin(words);
      Some(CronEntry(ExpandSchedule(parts), Join(words, " ")))
  }

  /** A line written as five field tokens and the command's words, separated by
      single spaces, parses back into those fields (wildcards expanded) and the
      command. */
  lemma {:induction false} ParseFormatted(fields: seq<string>, words: seq<string>)
    requires |fields| == 5 && |words| >= 1
    requires forall i :: 0 <= i < |fields| ==> |fields[i]| > 0 && NoSpace(fields[i])
    requires forall i :: 0 <= i < |words| ==> |words[i]| > 0 && NoSpace(words[i])
    ensures ParseCronLine(Join(fields + words, " ")) == Some(CronEntry(ExpandSchedule(fields), Join(words, " ")))
  {
    var all := fields + words;
    TokensJoin(all);
    TokensStrip(Join(all, " "));
    assert all[5..] == words;
    assert all[..5] == fields;
  }

  // ---------------------------------------------------------------------------
  // is_within_range
  // ---------------------------------------------------------------------------

  /** One comma-separated part: a step (`x/N`), a range (`a-b`) or an integer. */
  function MatchPart(v: int, part: string): (r: Result<bool>)
    ensures r == Err(ZeroDivision) ==> '/' in part
    ensures r == Err(TooManyValues) ==> '/' !in part && '-' in part
  {
    if '/' in part then
      // only the text after the first `/` matters
      var divisor := Split(part, '/')[1];
      match ParseInt(divisor)
      case None => Err(InvalidInt(divisor))
      case Some(d) => if d == 0 then Err(ZeroDivision) else Ok(v % d == 0)
    else if '-' in part then
      // unpacking the lazy map(int, ...) into two names converts the first two
      // pieces, then converts a third one, if any, before it raises
      var pieces := Split(part, '-');
      match ParseInt(pieces[0])
      case None => Err(InvalidInt(pieces[0]))
      case Some(start) =>
        match ParseInt(pieces[1])
        case None => Err(InvalidInt(pieces[1]))
        case Some(end) =>
          if |pieces| == 2 then Ok(start <= v <= end)
          else if ParseInt(pieces[2]).None? then Err(InvalidInt(pieces[2]))
          else Err(TooManyValues)
    else
      match ParseInt(part)
      case None => Err(InvalidInt(part))
      case Some(n) => Ok(n == v)
  }

  /** The loop over the parts: the first part that matches or fails decides. */
  function MatchParts(v: int, parts: seq<string>): (r: Result<bool>)
    ensures r != Ok(false) ==> exists i :: 0 <= i < |parts| && MatchPart(v, parts[i]) == r
    decreases |parts|
  {
    if |parts| == 0 then Ok(false)
    else
      match MatchPart(v, parts[0])
      case Err(e) => Err(e)
      case Ok(true) => Ok(true)
      case Ok(false) =>
        var r := MatchParts(v, parts[1..]);
        assert r != Ok(false) ==> exists i :: 1 <= i < |parts| && MatchPart(v, parts[i]) == r by {
          if r != Ok(false) {
            var i :| 0 <= i < |parts| - 1 && MatchPart(v, parts[1..][i]) == r;
            assert parts[1..][i] == parts[i + 1];
          }
        }
        r
  }

  /** `is_within_range(current_value, cron_field)`: a field without a comma is
      matched as one part. */
  function IsWithinRange(v: int, field: string): (r: Result<bool>)
    ensures ',' !in field ==> r == MatchPart(v, field)
  {
    var parts := Split(field, ',');
    assert ',' !in field ==> parts == [field] by {
      if ',' !in field { SplitNoSep(field, ','); }
    }
    MatchParts(v, parts)
  }

  /** Part `i` is the first part that does not simply fail to match. */
  predicate Decides(v: int, parts: seq<string>, i: int) {
    0 <= i < |parts| && MatchPart(v, parts[i]) != Ok(false) &&
    forall j :: 0 <= j < i ==> MatchPart(v, parts[j]) == Ok(false)
  }

  /** A list fails to match exactly when every part fails to match; otherwise
      its result is that of the first part that matches or raises, and the
      parts after it are never looked at. */
  lemma {:induction false} MatchPartsFirstDecides(v: int, parts: seq<string>)
    ensures MatchParts(v, parts) == Ok(false) <==> forall i :: 0 <= i < |parts| ==> MatchPart(v, parts[i]) == Ok(false)
    ensures MatchParts(v, parts) != Ok(false) ==>
              exists i :: Decides(v, parts, i) && MatchParts(v, parts) == MatchPart(v, parts[i])
  {
    if |parts| > 0 {
      var rest := parts[1..];
      MatchPartsFirstDecides(v, rest);
      if MatchPart(v, parts[0]) != Ok(false) {
        assert Decides(v, parts, 0);
      } else {
        assert forall i :: 1 <= i < |parts| ==> parts[i] == rest[i - 1];
        if MatchParts(v, rest) != Ok(false) {
          var i :| Decides(v, rest, i) && MatchParts(v, rest) == MatchPart(v, rest[i]);
          assert Decides(v, parts, i + 1);
        }
      }
    }
  }

  /** When no part raises, a list matches iff some part matches. */
  lemma ListMatchesAnyPart(v: int, parts: seq<string>)
    requires forall i :: 0 <= i < |parts| ==> MatchPart(v, parts[i]).Ok?
    ensures MatchParts(v, parts) == Ok(exists i :: 0 <= i < |parts| && MatchPart(v, parts[i]) == Ok(true))
  {
    var r := MatchParts(v, parts);
    MatchPartsFirstDecides(v, parts);
    if r == Ok(false) {
      assert forall i :: 0 <= i < |parts| ==> MatchPart(v, parts[i]) != Ok(true);
    } else {
      var i :| Decides(v, parts, i) && r == MatchPart(v, parts[i]);
      assert r == Ok(true);
    }
  }

  /** A field written as comma-separated parts is matched part by part. */
  lemma WithinRangeOfList(v: int, parts: seq<string>)
    requires |parts| >= 1
    requires forall i :: 0 <= i < |parts| ==> ',' !in parts[i]
    ensures IsWithinRange(v, Join(parts, ",")) == MatchParts(v, parts)
  {
    SplitJoin(parts, ',');
  }

  // Step parts ignore what stands before the first `/`: `1-10/2` acts as `*/2`.
  lemma StepIgnoresStart(v: int, start: string, rest: string)
    requires '/' !in start
    ensures MatchPart(v, start + "/" + rest) == MatchPart(v, "*/" + rest)
  {
    SplitConcat(start, rest, '/');
    SplitConcat("*", rest, '/');
    assert "*/" + rest == "*" + "/" + rest;
  }

  /** A step part is decided by the text between its first and second `/`
      alone: a non-integer there raises, 0 raises a division by zero, and any
      other integer matches exactly its multiples. */
  lemma StepPart(v: int, start: string, rest: string)
    requires '/' !in start
    ensures var divisor := Split(rest, '/')[0];
            MatchPart(v, start + "/" + rest) ==
            match ParseInt(divisor)
            case None => Err(InvalidInt(divisor))
            case Some(d) => if d == 0 then Err(ZeroDivision) else Ok(exists k :: v == k * d)
  {
    SplitConcat(start, rest, '/');
    assert (start + "/" + rest)[|start|] == '/';
    var divisor := Split(rest, '/')[0];
    match ParseInt(divisor) {
      case None =>
      case Some(d) =>
        if d != 0 {
          DividesIffModZero(v, d);
        }
    }
  }

  lemma {:induction false} DividesIffModZero(v: int, d: int)
    requires d != 0
    ensures v % d == 0 <==> exists k :: v == k * d
  {
    if v % d == 0 {
      assert v == (v / d) * d;
    } else if exists k :: v == k * d {
      var k :| v == k * d;
      ModOfMultiple(k, d);
    }
  }

  lemma MulAtLeast(m: int, d: int)
    requires m >= 1 && d >= 1
    ensures m * d >= d
  {
    assert m * d == (m - 1) * d + d;
    assert (m - 1) * d >= 0;
  }

  lemma ModOfMultiple(k: int, d: int)
    requires d != 0
    ensures (k * d) % d == 0
  {
    var q, r := (k * d) / d, (k * d) % d;
    var m := k - q;
    assert k * d == q * d + r;
    assert m * d == k * d - q * d;
    assert m * d == r;
    assert 0 <= r < (if d > 0 then d else -d);
    if m > 0 && d > 0 { MulAtLeast(m, d); }
    else if m < 0 && d > 0 { MulAtLeast(-m, d); }
    else if m > 0 && d < 0 { MulAtLeast(m, -d); }
    else if m < 0 && d < 0 { MulAtLeast(-m, -d); }
  }

  // `*/N` matches exactly the multiples of N, for a negative N too; a zero N raises.
  lemma StepMatchesMultiples(v: int, d: int)
    ensures d != 0 ==> MatchPart(v, "*/" + IntToDecimal(d)) == Ok(exists k :: v == k * d)
    ensures d == 0 ==> MatchPart(v, "*/" + IntToDecimal(d)) == Err(ZeroDivision)
  {
    var text := IntToDecimal(d);
    ParseIntDecimal(d);
    DecimalHasNoFieldSyntax(if d < 0 then -d else d);
    assert '/' !in text;
    SplitConcat("*", text, '/');
    SplitNoSep(text, '/');
    assert "*/" + text == "*" + "/" + text;
    if d != 0 {
      DividesIffModZero(v, d);
    }
  }

  /** `a-b` matches exactly the values from a to b inclusive. */
  lemma RangeMatchesInterval(v: int, a: nat, b: nat)
    ensures MatchPart(v, NatToDecimal(a) + "-" + NatToDecimal(b)) == Ok(a <= v <= b)
  {
    var sa, sb := NatToDecimal(a), NatToDecimal(b);
    DecimalHasNoFieldSyntax(a);
    DecimalHasNoFieldSyntax(b);
    SplitConcat(sa, sb, '-');
    SplitNoSep(sb, '-');
    ParseIntDecimal(a);
    ParseIntDecimal(b);
    assert '/' !in sa + "-" + sb;
  }

  /** A two-piece range `a-b` converts `a`, then `b`, raising at the first
      that is not an integer, and matches exactly the values from a to b. */
  lemma RangePart(v: int, first: string, second: string)
    requires '/' !in first && '/' !in second && '-' !in first && '-' !in second
    ensures MatchPart(v, first + "-" + second) ==
            match ParseInt(first)
            case None => Err(InvalidInt(first))
            case Some(a) =>
              match ParseInt(second)
              case None => Err(InvalidInt(second))
              case Some(b) => Ok(a <= v <= b)
  {
    SplitConcat(first, second, '-');
    SplitNoSep(second, '-');
    assert (first + "-" + second)[|first|] == '-';
    assert '/' !in first + "-" + second;
  }

  /** A range with a third piece raises once its first two pieces are integers:
      with the third piece's conversion error when it is not an integer, and
      because there are too many values when it is. */
  lemma RangeWithThreePiecesRaises(v: int, a: nat, b: nat, rest: string)
    requires '/' !in rest
    ensures var third := Split(rest, '-')[0];
            MatchPart(v, NatToDecimal(a) + "-" + NatToDecimal(b) + "-" + rest) ==
            if ParseInt(third).None? then Err(InvalidInt(third)) else Err(TooManyValues)
  {
    ThreePieces(a, b, rest);
    ParseIntDecimal(a);
    ParseIntDecimal(b);
  }

  lemma ThreePieces(a: nat, b: nat, rest: string)
    requires '/' !in rest
    ensures var part := NatToDecimal(a) + "-" + NatToDecimal(b) + "-" + rest;
            '/' !in part && '-' in part &&
            var pieces := Split(part, '-');
            |pieces| >= 3 && pieces[0] == NatToDecimal(a) && pieces[1] == NatToDecimal(b) &&
            pieces[2] == Split(rest, '-')[0]
  {
    var sa, sb := NatToDecimal(a), NatToDecimal(b);
    DecimalHasNoFieldSyntax(a);
    DecimalHasNoFieldSyntax(b);
    var tail := sb + "-" + rest;
    var part := sa + "-" + tail;
    assert part == sa + "-" + sb + "-" + rest;
    SplitConcat(sb, rest, '-');
    SplitConcat(sa, tail, '-');
    var pieces := [sa] + ([sb] + Split(rest, '-'));
    assert Split(part, '-') == pieces;
    assert pieces[0] == sa && pieces[1] == sb && pieces[2] == Split(rest, '-')[0];
    assert part[|sa|] == '-';
  }

  /** A plain integer matches only itself; a negative one is read as a range
      with an empty start and raises. */
  lemma PlainMatchesItself(v: int, n: nat)
    ensures MatchPart(v, NatToDecimal(n)) == Ok(v == n)
    ensures MatchPart(v, "-" + NatToDecimal(n)) == Err(InvalidInt(""))
  {
    var s := NatToDecimal(n);
    DecimalHasNoFieldSyntax(n);
    ParseIntDecimal(n);
    SplitConcat("", s, '-');
    assert "-" + s == "" + "-" + s;
    assert '/' !in "-" + s;
  }

  /** A wildcard, once expanded, matches every value of its field's natural
      range and nothing outside it. */
  lemma WildcardMatchesFullRange(f: Field, v: int)
    ensures IsWithinRange(v, Expand("*", f)) == Ok(Lo(f) <= v <= Hi(f))
  {
    assert Replace("*", '*', FullRange(f)) == FullRange(f);
    match f {
      case Minute => assert NatToDecimal(59) == "59";
      case Hour => assert NatToDecimal(23) == "23";
      case Day => assert NatToDecimal(31) == "31";
      case Month => assert NatToDecimal(12) == "12";
      case Weekday =>
    }
    assert Expand("*", f) == NatToDecimal(Lo(f)) + "-" + NatToDecimal(Hi(f));
    RangeFieldMatches(v, Lo(f), Hi(f));
  }

  // ---------------------------------------------------------------------------
  // is_time_to_run
  // ---------------------------------------------------------------------------

  /** The five checks of `is_time_to_run`, minute first and weekday last. */
  function FieldChecks(s: Schedule, t: Timestamp): (r: seq<Result<bool>>)
    ensures |r| == 5
  {
    [IsWithinRange(t.minute, s.mins), IsWithinRange(t.hour, s.hours), IsWithinRange(t.day, s.days),
     IsWithinRange(t.month, s.months), IsWithinRange(t.weekday, s.weekdays)]
  }

  /** The checks of `is_time_to_run` in order: the first one that does not
      match returns `False`, or raises if it raised; when all match, `True`. */
  function FirstDecision(checks: seq<Result<bool>>): (r: Result<bool>)
    ensures r == Ok(true) <==> forall k :: 0 <= k < |checks| ==> checks[k] == Ok(true)
    decreases |checks|
  {
    if |checks| == 0 then Ok(true)
    else if checks[0] != Ok(true) then (if checks[0].Err? then checks[0] else Ok(false))
    else FirstDecision(checks[1..])
  }

  /** `is_time_to_run(cron_schedule)` at time `t`; a missing schedule is never due. */
  function IsTimeToRun(schedule: Option<Schedule>, t: Timestamp): (r: Result<bool>)
    ensures schedule.None? ==> r == Ok(false)
    ensures schedule.Some? ==>
              (r == Ok(true) <==> forall k :: 0 <= k < 5 ==> FieldChecks(schedule.value, t)[k] == Ok(true))
  {
    match schedule
    case None => Ok(false)
    case Some(s) => FirstDecision(FieldChecks(s, t))
  }

  /** Check `k` is the first one that does not match. */
  predicate FirstMismatchAt(checks: seq<Result<bool>>, k: int) {
    0 <= k < |checks| && checks[k] != Ok(true) && forall j :: 0 <= j < k ==> checks[j] == Ok(true)
  }

  /** When the checks do not all match, the first one that does not match
      decides: a later check's error is raised only if every earlier one matched. */
  lemma {:induction false} FirstMismatchDecides(checks: seq<Result<bool>>)
    requires FirstDecision(checks) != Ok(true)
    ensures exists k :: FirstMismatchAt(checks, k) &&
                        FirstDecision(checks) == (if checks[k].Err? then checks[k] else Ok(false))
    decreases |checks|
  {
    if checks[0] == Ok(true) {
      var rest := checks[1..];
      FirstMismatchDecides(rest);
      var k :| FirstMismatchAt(rest, k) && FirstDecision(rest) == (if rest[k].Err? then rest[k] else Ok(false));
      assert checks[k + 1] == rest[k];
      assert forall j :: 1 <= j < k + 1 ==> checks[j] == rest[j - 1];
      assert FirstMismatchAt(checks, k + 1);
    } else {
      assert FirstMismatchAt(checks, 0);
    }
  }

  /** When a schedule is not due, the first field (minute, hour, day, month,
      weekday) whose check does not match decides. */
  lemma TimeToRunFirstMismatch(s: Schedule, t: Timestamp)
    requires IsTimeToRun(Some(s), t) != Ok(true)
    ensures exists k :: FirstMismatchAt(FieldChecks(s, t), k) &&
                        IsTimeToRun(Some(s), t) == (if FieldChecks(s, t)[k].Err? then FieldChecks(s, t)[k] else Ok(false))
  {
    FirstMismatchDecides(FieldChecks(s, t));
  }

  /** The line `0 9 * * 1-5 backup.sh` (its tokens joined by single spaces)
      parses into its five fields, the two wildcards expanded, and the command
      `backup.sh`. */
  lemma BackupLineParses(fields: seq<string>, words: seq<string>)
    requires fields == ["0", "9", "*", "*", "1-5"] && words == ["backup.sh"]
    ensures ParseCronLine(Join(fields + words, " ")) ==
            Some(CronEntry(Schedule("0", "9", "1-31", "1-12", "1-5"), "backup.sh"))
  {
    BackupLineTokens(fields, words);
    BackupFieldsExpand(fields);
    ParseFormatted(fields, words);
  }

  lemma BackupLineTokens(fields: seq<string>, words: seq<string>)
    requires fields == ["0", "9", "*", "*", "1-5"] && words == ["backup.sh"]
    ensures |fields| == 5 && |words| == 1
    ensures forall i :: 0 <= i < |fields| ==> |fields[i]| > 0 && NoSpace(fields[i])
    ensures forall i :: 0 <= i < |words| ==> |words[i]| > 0 && NoSpace(words[i])
  {
  }

  lemma BackupFieldsExpand(fields: seq<string>)
    requires fields == ["0", "9", "*", "*", "1-5"]
    ensures ExpandSchedule(fields) == Schedule("0", "9", "1-31", "1-12", "1-5")
  {
  }

  /** Weekdays count from Monday as 0, so the entry `0 9 * * 1-5 backup.sh` is
      due exactly at 09:00 from Tuesday (1) to Saturday (5), on every day of
      every month. */
  lemma WeekdayBackupSchedule(s: Schedule, t: Timestamp)
    requires s == Schedule("0", "9", "1-31", "1-12", "1-5")
    ensures IsTimeToRun(Some(s), t) ==
            Ok(t.minute == 0 && t.hour == 9 && 1 <= t.day <= 31 && 1 <= t.month <= 12 && 1 <= t.weekday <= 5)
  {
    BackupScheduleDecimals(s);
    DailyAtSchedule(s, t, 0, 9, 5);
  }

  /** A schedule `m h 1-31 1-12 1-w`, at a given minute and hour on weekdays 1
      to `w`, is due exactly then. */
  lemma DailyAtSchedule(s: Schedule, t: Timestamp, m: nat, h: nat, w: nat)
    requires s.mins == NatToDecimal(m) && s.hours == NatToDecimal(h)
    requires s.days == RangeText(1, 31)
    requires s.months == RangeText(1, 12)
    requires s.weekdays == RangeText(1, w)
    ensures IsTimeToRun(Some(s), t) ==
            Ok(t.minute == m && t.hour == h && 1 <= t.day <= 31 && 1 <= t.month <= 12 && 1 <= t.weekday <= w)
  {
    DailyAtChecks(s, t, m, h, 1, 31, 1, 12, 1, w);
    ChecksDecide(t.minute == m, t.hour == h, 1 <= t.day <= 31, 1 <= t.month <= 12, 1 <= t.weekday <= w);
  }

  lemma DailyAtChecks(s: Schedule, t: Timestamp, m: nat, h: nat, da: nat, db: nat, ma: nat, mb: nat, wa: nat, wb: nat)
    requires s.mins == NatToDecimal(m) && s.hours == NatToDecimal(h)
    requires s.days == RangeText(da, db)
    requires s.months == RangeText(ma, mb)
    requires s.weekdays == RangeText(wa, wb)
    ensures FieldChecks(s, t) == [Ok(t.minute == m), Ok(t.hour == h), Ok(da <= t.day <= db),
                                  Ok(ma <= t.month <= mb), Ok(wa <= t.weekday <= wb)]
  {
    PlainFieldMatches(t.minute, m);
    PlainFieldMatches(t.hour, h);
    RangeFieldMatches(t.day, da, db);
    RangeFieldMatches(t.month, ma, mb);
    RangeFieldMatches(t.weekday, wa, wb);
  }

  /** Five checks that all come back without an error decide by their conjunction. */
  lemma ChecksDecide(a: bool, b: bool, c: bool, d: bool, e: bool)
    ensures FirstDecision([Ok(a), Ok(b), Ok(c), Ok(d), Ok(e)]) == Ok(a && b && c && d && e)
  {
    var c5: seq<Result<bool>> := [Ok(e)];
    var c4, c3, c2, c1 := [Ok(d)] + c5, [Ok(c), Ok(d)] + c5, [Ok(b), Ok(c), Ok(d)] + c5, [Ok(a), Ok(b), Ok(c), Ok(d)] + c5;
    assert c5[1..] == [] && c4[1..] == c5 && c3[1..] == c4 && c2[1..] == c3 && c1[1..] == c2;
    assert FirstDecision(c5) == Ok(e);
    assert FirstDecision(c4) == Ok(d && e);
    assert FirstDecision(c3) == Ok(c && d && e);
    assert FirstDecision(c2) == Ok(b && c && d && e);
    assert c1 == [Ok(a), Ok(b), Ok(c), Ok(d), Ok(e)];
  }

  lemma BackupScheduleDecimals(s: Schedule)
    requires s == Schedule("0", "9", "1-31", "1-12", "1-5")
    ensures s.mins == NatToDecimal(0) && s.hours == NatToDecimal(9)
    ensures s.days == RangeText(1, 31)
    ensures s.months == RangeText(1, 12)
    ensures s.weekdays == RangeText(1, 5)
  {
  }

  lemma PlainFieldMatches(v: int, n: nat)
    ensures IsWithinRange(v, NatToDecimal(n)) == Ok(v == n)
  {
    DecimalHasNoFieldSyntax(n);
    PlainMatchesItself(v, n);
  }

  /** The field text `a-b`. */
  function RangeText(a: nat, b: nat): string {
    NatToDecimal(a) + "-" + NatToDecimal(b)
  }

  lemma RangeFieldMatches(v: int, a: nat, b: nat)
    ensures IsWithinRange(v, RangeText(a, b)) == Ok(a <= v <= b)
  {
    var text := RangeText(a, b);
    DecimalHasNoFieldSyntax(a);
    DecimalHasNoFieldSyntax(b);
    assert ',' !in text;
    RangeMatchesInterval(v, a, b);
  }
}
