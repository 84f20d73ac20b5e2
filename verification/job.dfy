/** One crontab entry as a job record: parsing a line of the crontab format
    (`Job::fromString`), rendering a record back to a line (`Job::toString`),
    the run status derived from the job's log and error files, and the two
    setters with rules of their own (`setStatus`, `setSuspended`).

    The line format is
      `[#suspended: ]<minute> <hour> <day-of-month> <month> <day-of-week> <command>[ > <log>][ 2> <error>][ #<comment>]`
    where the five schedule fields are opaque text. */
module CronJob {
  import opened Wrappers
  import opened CronErrors
  import opened PhpStrings

  /** The line prefix that marks a suspended job. */
  const SuspendedPrefix: string := "#suspended: "

  /** The first token rendered for a suspended job; followed by the joining
      space it spells `SuspendedPrefix`. */
  const SuspendedMarker: string := "#suspended:"

  datatype Status = Unknown | Success | Error

  /** The status constants `Job::STATUS_*`. */
  function StatusName(s: Status): string {
    match s
    case Unknown => "unknown"
    case Success => "success"
    case Error => "error"
  }

  /** A job record. A field `Job` leaves `null` is the empty string here:
      PHP's `(string)` cast and its truthiness treat both alike. */
  datatype Job = Job(
    minute: string,
    hour: string,
    dayOfMonth: string,
    month: string,
    dayOfWeek: string,
    command: string,
    logFile: string,
    errorFile: string,
    comment: string,
    suspended: bool,
    lastRunTime: Option<int>,
    status: Status)

  /** `new Job()`: every schedule field `*`, no command, not suspended, status unknown. */
  const NewJob: Job := Job("*", "*", "*", "*", "*", "", "", "", "", false, None, Unknown)

  /** What `file_exists`, `filemtime` and `filesize` report for one path. */
  datatype FileStat = FileStat(mtime: int, size: nat)

  /** The file system as seen by the parser: a path's stats, or `None` when
      no file exists there. */
  type FileSystem = string -> Option<FileStat>

  // ---------------------------------------------------------------------
  // Run status

  datatype RunInfo = RunInfo(lastRunTime: Option<int>, status: Status)

  /** The status and last run time `fromString` derives from the log and
      error files: a file is consulted only when its name is truthy and it
      exists; the error file's mtime, read second, wins. */
  function Inspect(logFile: string, errorFile: string, fs: FileSystem): (r: RunInfo)
    ensures r.status != Unknown <==>
      Truthy(logFile) && fs(logFile).Some? && fs(logFile).value.size > 0
    ensures r.status == Error <==>
      r.status != Unknown && Truthy(errorFile) && fs(errorFile).Some? && fs(errorFile).value.size > 0
    ensures Truthy(errorFile) && fs(errorFile).Some? ==>
      r.lastRunTime == Some(fs(errorFile).value.mtime)
    ensures !(Truthy(errorFile) && fs(errorFile).Some?) && Truthy(logFile) && fs(logFile).Some? ==>
      r.lastRunTime == Some(fs(logFile).value.mtime)
    ensures r.lastRunTime.None? <==>
      !(Truthy(logFile) && fs(logFile).Some?) && !(Truthy(errorFile) && fs(errorFile).Some?)
  {
    var logStat := if Truthy(logFile) then fs(logFile) else None;
    var errorStat := if Truthy(errorFile) then fs(errorFile) else None;
    var fromLog := if logStat.Some? then Some(logStat.value.mtime) else None;
    var lastRun := if errorStat.Some? then Some(errorStat.value.mtime) else fromLog;
    var logSize := if logStat.Some? then logStat.value.size else 0;
    var errorSize := if errorStat.Some? then errorStat.value.size else 0;
    RunInfo(lastRun, if logSize != 0 then (if errorSize == 0 then Success else Error) else Unknown)
  }

  // ---------------------------------------------------------------------
  // Parsing

  /** The line with a leading `SuspendedPrefix` removed. */
  function Unsuspend(line: string): string {
    if StartsWith(line, SuspendedPrefix) then line[|SuspendedPrefix|..] else line
  }

  /** The five schedule fields in line order. */
  function ScheduleFields(j: Job): seq<string> {
    [j.minute, j.hour, j.dayOfMonth, j.month, j.dayOfWeek]
  }

  /** The five schedule fields joined by single spaces. */
  function Schedule(j: Job): string {
    Implode(ScheduleFields(j), " ")
  }

  /** No schedule field holds a space. */
  predicate SpaceFreeSchedule(j: Job) {
    ' ' !in j.minute && ' ' !in j.hour && ' ' !in j.dayOfMonth && ' ' !in j.month && ' ' !in j.dayOfWeek
  }

  /** The trimmed command, log file, error file and comment cut from a line's tail. */
  datatype Pieces = Pieces(command: string, logFile: string, errorFile: string, comment: string)

  /** Cuts the tail after the schedule fields, in `Job::fromString`'s order: the
      comment at the first `#`, then the error file at the first `2>`, then the
      log file at the first `>`; each piece is trimmed. */
  function Peel(tail: string): (p: Pieces)
    ensures p.comment == Trim(Before(After(tail, "#"), "#"))
    ensures '#' !in p.command && '>' !in p.command
    ensures '#' !in p.logFile && '>' !in p.logFile
    ensures '#' !in p.errorFile && Free(p.errorFile, "2>")
    ensures '#' !in p.comment
    ensures Trimmed(p.command) && Trimmed(p.logFile) && Trimmed(p.errorFile) && Trimmed(p.comment)
  {
    var (rest1, comment) := SplitOff(tail, "#");
    var (rest2, errorFile) := SplitOff(rest1, "2>");
    var (command, logFile) := SplitOff(rest2, ">");
    FreeChar(rest1, '#');
    FreeChar(comment, '#');
    SplitOffKeepsOut(rest1, "2>", '#');
    SplitOffKeepsOut(rest2, ">", '#');
    FreeChar(command, '>');
    FreeChar(logFile, '>');
    TrimChar(command, '#');
    TrimChar(command, '>');
    TrimChar(logFile, '#');
    TrimChar(logFile, '>');
    TrimChar(errorFile, '#');
    TrimChar(comment, '#');
    TrimFree(errorFile, "2>");
    Pieces(Trim(command), Trim(logFile), Trim(errorFile), Trim(comment))
  }

  /** The text each piece holds: with the comment cut off at the first `#`,
      the error file is what lies between the first and second `2>`, the log
      file what lies between the first and second `>` before the first `2>`,
      and the command everything before the first `>` of that; each trimmed. */
  lemma PeelValues(tail: string)
    ensures Peel(tail).errorFile == Trim(Before(After(Before(tail, "#"), "2>"), "2>"))
    ensures Peel(tail).logFile == Trim(Before(After(Before(Before(tail, "#"), "2>"), ">"), ">"))
    ensures Peel(tail).command == Trim(Before(Before(Before(tail, "#"), "2>"), ">"))
  {
  }

  /** A text with at least six space-separated tokens is its first five
      tokens joined, a space, and the rest joined; the five hold no space. */
  lemma SplitSchedule(rest: string)
    requires |Explode(rest, " ")| >= 6
    ensures var parts := Explode(rest, " ");
      rest == Implode([parts[0], parts[1], parts[2], parts[3], parts[4]], " ") + " " + Implode(parts[5..], " ")
    ensures var parts := Explode(rest, " ");
      ' ' !in parts[0] && ' ' !in parts[1] && ' ' !in parts[2] && ' ' !in parts[3] && ' ' !in parts[4]
  {
    var parts := Explode(rest, " ");
    ImplodeExplode(rest, " ");
    assert parts == parts[..5] + parts[5..];
    ImplodeAppend(parts[..5], parts[5..], " ");
    assert parts[..5] == [parts[0], parts[1], parts[2], parts[3], parts[4]];
    ExplodePiecesFree(rest, " ");
    FreeChar(parts[0], ' ');
    FreeChar(parts[1], ' ');
    FreeChar(parts[2], ' ');
    FreeChar(parts[3], ' ');
    FreeChar(parts[4], ' ');
  }

  /** The text after the five schedule fields of a parsed line. */
  function TailOf(line: string, j: Job): string {
    var rest := Unsuspend(line);
    if |Schedule(j)| + 1 <= |rest| then rest[|Schedule(j)| + 1..] else ""
  }

  /** `Job::fromString`. Fails on the empty line and on a line that, once a
      leading `#suspended: ` is removed, has fewer than five spaces (fewer
      than six space-separated tokens). Otherwise the first five tokens are
      the schedule fields verbatim (empty when spaces are doubled), the
      rest is the tail that `Peel` cuts (see `FromStringFields`), and the
      status comes from the files. */
  function FromString(line: string, fs: FileSystem): (r: Result<Job, CronError>)
    ensures line == "" ==> r == Err(EmptyJobLine)
    ensures line != "" ==> (r.Ok? <==> multiset(Unsuspend(line))[' '] >= 5)
    ensures line != "" && r.Err? ==> r.error == TooFewFields
    ensures r.Ok? ==> r.value.suspended == StartsWith(line, SuspendedPrefix)
    ensures r.Ok? ==> '#' !in r.value.command && '>' !in r.value.command
    ensures r.Ok? ==> '#' !in r.value.logFile && '>' !in r.value.logFile
    ensures r.Ok? ==> '#' !in r.value.errorFile && Free(r.value.errorFile, "2>")
    ensures r.Ok? ==> '#' !in r.value.comment
    ensures r.Ok? ==>
      Trimmed(r.value.command) && Trimmed(r.value.logFile) && Trimmed(r.value.errorFile) && Trimmed(r.value.comment)
    ensures r.Ok? ==>
      RunInfo(r.value.lastRunTime, r.value.status) == Inspect(r.value.logFile, r.value.errorFile, fs)
  {
    if line == "" then Err(EmptyJobLine)
    else
      var rest := Unsuspend(line);
      var parts := Explode(rest, " ");
      ExplodeCount(rest, ' ');
      if |parts| < 6 then Err(TooFewFields)
      else
        var tail := Implode(parts[5..], " ");
        var p := Peel(tail);
        var info := Inspect(p.logFile, p.errorFile, fs);
        var job := Job(parts[0], parts[1], parts[2], parts[3], parts[4],
                       p.command, p.logFile, p.errorFile, p.comment,
                       StartsWith(line, SuspendedPrefix), info.lastRunTime, info.status);
        Ok(job)
  }

  /** A non-empty line with six tokens parses to its first five tokens and
      the pieces `Peel` cuts from the rest joined back. */
  lemma FromStringOk(line: string, fs: FileSystem)
    requires line != "" && |Explode(Unsuspend(line), " ")| >= 6
    ensures var parts := Explode(Unsuspend(line), " ");
      var p := Peel(Implode(parts[5..], " "));
      var info := Inspect(p.logFile, p.errorFile, fs);
      FromString(line, fs) == Ok(Job(parts[0], parts[1], parts[2], parts[3], parts[4],
                                     p.command, p.logFile, p.errorFile, p.comment,
                                     StartsWith(line, SuspendedPrefix), info.lastRunTime, info.status))
  {
  }

  /** The schedule fields of a parsed line are its first five space-separated
      tokens (after the suspension prefix) and hold no space; the comment,
      error file, log file and command are the pieces `PeelValues` names,
      cut from the rest. */
  lemma FromStringFields(line: string, fs: FileSystem)
    ensures var r := FromString(line, fs);
      r.Ok? ==>
        && SpaceFreeSchedule(r.value)
        && StartsWith(Unsuspend(line), Schedule(r.value) + " ")
        && r.value.comment == Trim(Before(After(TailOf(line, r.value), "#"), "#"))
        && r.value.errorFile == Trim(Before(After(Before(TailOf(line, r.value), "#"), "2>"), "2>"))
        && r.value.logFile == Trim(Before(After(Before(Before(TailOf(line, r.value), "#"), "2>"), ">"), ">"))
        && r.value.command == Trim(Before(Before(Before(TailOf(line, r.value), "#"), "2>"), ">"))
  {
    if FromString(line, fs).Ok? {
      var rest := Unsuspend(line);
      var parts := Explode(rest, " ");
      ExplodeCount(rest, ' ');
      var j := FromString(line, fs).value;
      var tail := Implode(parts[5..], " ");
      assert j.comment == Peel(tail).comment;
      PeelValues(tail);
      SplitSchedule(rest);
      assert ScheduleFields(j) == [parts[0], parts[1], parts[2], parts[3], parts[4]];
      assert rest == Schedule(j) + " " + tail;
      assert TailOf(line, j) == tail;
    }
  }

  // ---------------------------------------------------------------------
  // Rendering

  /** The tokens `toString` joins: the suspension marker, the five schedule
      fields, the command, then each optional field that is truthy. */
  function Tokens(j: Job): seq<string> {
    var head := if j.suspended then [SuspendedMarker] else [];
    var fixed := head + ScheduleFields(j) + [j.command];
    var withLog := if Truthy(j.logFile) then fixed + ["> " + j.logFile] else fixed;
    var withError := if Truthy(j.errorFile) then withLog + ["2> " + j.errorFile] else withLog;
    if Truthy(j.comment) then withError + ["#" + j.comment] else withError
  }

  /** An optional field as it appears in a rendered line. */
  function Optional(marker: string, value: string): string {
    if Truthy(value) then " " + marker + value else ""
  }

  /** The sentinel a rendered line starts with: `#suspended: ` or nothing. */
  function Prefix(j: Job): string {
    if j.suspended then SuspendedPrefix else ""
  }

  /** The rendered text after the schedule fields. */
  function Body(j: Job): string {
    j.command + Optional("> ", j.logFile) + Optional("2> ", j.errorFile) + Optional("#", j.comment)
  }

  /** The canonical line of a job. */
  function Layout(j: Job): string {
    Prefix(j) + Schedule(j) + " " + Body(j)
  }

  lemma FixedTokens(j: Job)
    ensures var head := if j.suspended then [SuspendedMarker] else [];
      Implode(head + ScheduleFields(j) + [j.command], " ") == Prefix(j) + Schedule(j) + " " + j.command
  {
    var six := ScheduleFields(j) + [j.command];
    ImplodeSnoc(ScheduleFields(j), j.command, " ");
    var x := Implode(six, " ");
    if j.suspended {
      ImplodeCons(SuspendedMarker, six, " ");
      assert [SuspendedMarker] + ScheduleFields(j) + [j.command] == [SuspendedMarker] + six;
      assert SuspendedMarker + " " == SuspendedPrefix;
      calc {
        SuspendedMarker + " " + x;
        SuspendedPrefix + x;
        SuspendedPrefix + (Schedule(j) + " " + j.command);
        SuspendedPrefix + Schedule(j) + " " + j.command;
      }
    } else {
      assert [] + ScheduleFields(j) + [j.command] == six;
      assert "" + x == x;
    }
  }

  lemma AppendOptional(parts: seq<string>, marker: string, value: string)
    requires |parts| > 0
    ensures var more := if Truthy(value) then parts + [marker + value] else parts;
      Implode(more, " ") == Implode(parts, " ") + Optional(marker, value)
  {
    if Truthy(value) {
      ImplodeSnoc(parts, marker + value, " ");
      var x := Implode(parts, " ");
      assert x + " " + (marker + value) == x + (" " + marker + value);
    } else {
      assert Implode(parts, " ") + "" == Implode(parts, " ");
    }
  }

  lemma TokensLayout(j: Job)
    ensures Implode(Tokens(j), " ") == Layout(j)
  {
    var head := if j.suspended then [SuspendedMarker] else [];
    var fixed := head + ScheduleFields(j) + [j.command];
    FixedTokens(j);
    var withLog := if Truthy(j.logFile) then fixed + ["> " + j.logFile] else fixed;
    AppendOptional(fixed, "> ", j.logFile);
    var withError := if Truthy(j.errorFile) then withLog + ["2> " + j.errorFile] else withLog;
    AppendOptional(withLog, "2> ", j.errorFile);
    AppendOptional(withError, "#", j.comment);
    assert Tokens(j) == if Truthy(j.comment) then withError + ["#" + j.comment] else withError;
    Reassociate(Prefix(j) + Schedule(j) + " ", j.command, Optional("> ", j.logFile),
      Optional("2> ", j.errorFile), Optional("#", j.comment));
  }

  /** Proof step for `TokensLayout`: regroups the line after the schedule into
      the command and its optional fields. */
  lemma Reassociate(p: string, w: string, a: string, b: string, c: string)
    ensures p + w + a + b + c == p + (w + a + b + c)
  {
  }

  /** `Job::toString`: fails exactly when the command is empty; otherwise the
      line `[#suspended: ]min hour dom month dow command[ > log][ 2> error][ #comment]`,
      omitting every optional field that is `""` or `"0"`. */
  function ToString(j: Job): (r: Result<string, CronError>)
    ensures r.Err? <==> j.command == ""
    ensures r.Err? ==> r.error == EmptyCommand
    ensures r.Ok? ==> r.value == Layout(j)
  {
    if j.command == "" then Err(EmptyCommand)
    else
      TokensLayout(j);
      Ok(Implode(Tokens(j), " "))
  }

  // ---------------------------------------------------------------------
  // Setters with rules

  /** The status a name denotes, if it is one of the three. */
  function ParseStatus(name: string): (r: Option<Status>)
    ensures r.Some? ==> StatusName(r.value) == name
    ensures r.None? <==> name != "unknown" && name != "success" && name != "error"
  {
    if name == "error" then Some(Error)
    else if name == "success" then Some(Success)
    else if name == "unknown" then Some(Unknown)
    else None
  }

  /** `Job::setStatus`: accepts exactly the three status names; any other
      name fails and the job keeps its status. Nothing but the status changes. */
  function SetStatus(j: Job, name: string): (r: Result<Job, CronError>)
    ensures r.Ok? <==> name == "unknown" || name == "success" || name == "error"
    ensures r.Ok? ==> StatusName(r.value.status) == name
    ensures r.Ok? ==> r.value.(status := j.status) == j
    ensures r.Err? ==> r.error == InvalidStatus(name)
  {
    match ParseStatus(name)
    case None => Err(InvalidStatus(name))
    case Some(s) => Ok(j.(status := s))
  }

  /** Every status survives being set by its name. */
  lemma SetStatusByName(j: Job, s: Status)
    ensures SetStatus(j, StatusName(s)) == Ok(j.(status := s))
  {
  }

  /** `Job::setSuspended`, whose flag defaults to true. Nothing else changes. */
  function SetSuspended(j: Job, flag: bool := true): (r: Job)
    ensures r.suspended == flag
    ensures r.(suspended := j.suspended) == j
  {
    j.(suspended := flag)
  }
}
