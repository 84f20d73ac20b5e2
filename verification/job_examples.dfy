/** Concrete lines of the job codec, as the repository's own job tests
    exercise them. */
module JobExamples {
  import opened Wrappers
  import opened CronErrors
  import opened PhpStrings
  import opened CronJob
  import opened JobRoundTrip

  /** The job the rendering test builds step by step. */
  const TestJob := Job("*/5", "0", "1", "2", "3", "bar", "log.txt", "error.txt", "comment",
                       true, None, Unknown)

  /** A fresh job has an empty command and cannot be rendered; with a
      command it renders with the five default `*` fields. */
  lemma NewJobCannotRender()
    ensures ToString(NewJob) == Err(EmptyCommand)
    ensures ToString(NewJob.(command := "foo")) == Ok("* * * * * foo")
  {
    var j := NewJob.(command := "foo");
    var p := ScheduleFields(j);
    assert p[1..][1..][1..][1..] == ["*"];
    assert p[1..][1..][1..] == ["*", "*"];
    assert p[1..][1..] == ["*", "*", "*"];
    assert p[1..] == ["*", "*", "*", "*"];
    assert Schedule(j) == "* * * * *";
    assert Body(j) == "foo";
    assert Layout(j) == "" + "* * * * *" + " " + "foo";
    assert "" + "* * * * *" + " " + "foo" == "* * * * * foo";
  }

  /** Proof step for `TestJobLine`: the pieces of the test job's line,
      appended one at a time, make the expected line. */
  lemma TestLineText()
    ensures "#suspended: " + "*/5 0 1 2 3" + " " + "bar" + " > log.txt" + " 2> error.txt" + " #comment" ==
      "#suspended: */5 0 1 2 3 bar > log.txt 2> error.txt #comment"
  {
    assert "#suspended: " + "*/5 0 1 2 3" == "#suspended: */5 0 1 2 3";
    assert "#suspended: */5 0 1 2 3" + " " + "bar" == "#suspended: */5 0 1 2 3 bar";
    assert "#suspended: */5 0 1 2 3 bar" + " > log.txt" == "#suspended: */5 0 1 2 3 bar > log.txt";
    assert "#suspended: */5 0 1 2 3 bar > log.txt" + " 2> error.txt" ==
      "#suspended: */5 0 1 2 3 bar > log.txt 2> error.txt";
    assert "#suspended: */5 0 1 2 3 bar > log.txt 2> error.txt" + " #comment" ==
      "#suspended: */5 0 1 2 3 bar > log.txt 2> error.txt #comment";
  }

  /** Proof step for `TestJobLine`: a job's line, as one piece appended after
      another. */
  lemma LayoutFlat(j: Job)
    ensures Layout(j) == Prefix(j) + Schedule(j) + " " + j.command + Optional("> ", j.logFile) +
      Optional("2> ", j.errorFile) + Optional("#", j.comment)
  {
  }

  /** Proof step for `TestJobLine`: the schedule of the test job. */
  lemma TestSchedule()
    ensures Schedule(TestJob) == "*/5 0 1 2 3"
  {
    var p := ScheduleFields(TestJob);
    assert p[1..][1..][1..][1..] == ["3"];
    assert p[1..][1..][1..] == ["2", "3"];
    assert p[1..][1..] == ["1", "2", "3"];
    assert p[1..] == ["0", "1", "2", "3"];
  }

  /** Proof step for `TestJobLine`: the rendered optional fields of the test
      job. */
  lemma TestOptionals()
    ensures Optional("> ", TestJob.logFile) == " > log.txt"
    ensures Optional("2> ", TestJob.errorFile) == " 2> error.txt"
    ensures Optional("#", TestJob.comment) == " #comment"
  {
  }

  /** The fully populated test job renders to its expected line. */
  lemma TestJobLine()
    ensures ToString(TestJob) == Ok("#suspended: */5 0 1 2 3 bar > log.txt 2> error.txt #comment")
  {
    TestSchedule();
    TestOptionals();
    LayoutFlat(TestJob);
    assert Prefix(TestJob) == "#suspended: ";
    TestLineText();
  }

  /** A suspended line with only two fields is too short. */
  lemma ShortLineRejected(fs: FileSystem)
    ensures FromString("#suspended: * *", fs) == Err(TooFewFields)
  {
    assert StartsWith("#suspended: * *", SuspendedPrefix);
    assert Unsuspend("#suspended: * *") == "* *";
    assert multiset("* *")[' '] == 1;
  }

  /** The test job's schedule fields hold no space and its command is clean. */
  lemma TestScheduleClean()
    ensures SpaceFreeSchedule(TestJob)
    ensures TestJob.command != "" && Trimmed(TestJob.command) && '#' !in TestJob.command && '>' !in TestJob.command
  {
  }

  /** The test job's log file and comment are trimmed and free of the
      delimiters cut before them. */
  lemma TestLogClean()
    ensures Truthy(TestJob.logFile) && Trimmed(TestJob.logFile)
    ensures '#' !in TestJob.logFile && '>' !in TestJob.logFile
    ensures Truthy(TestJob.comment) && Trimmed(TestJob.comment) && '#' !in TestJob.comment
  {
  }

  /** The test job's error file is trimmed and holds no `#` or `2>`. */
  lemma TestErrorClean()
    ensures Truthy(TestJob.errorFile) && Trimmed(TestJob.errorFile)
    ensures '#' !in TestJob.errorFile && Free(TestJob.errorFile, "2>")
  {
    FreeWithoutFirst("error.txt", "2>");
  }

  /** The test job is one that round-trips. */
  lemma TestJobRoundTrips()
    ensures RoundTrips(TestJob)
  {
    TestScheduleClean();
    TestLogClean();
    TestErrorClean();
  }

  /** With both files present and non-empty, the status is `error` and the
      last run time is the error file's. */
  lemma InspectBoth(l: string, e: string, fs: FileSystem, logTime: int, logSize: nat, errorTime: int, errorSize: nat)
    requires Truthy(l) && fs(l) == Some(FileStat(logTime, logSize)) && logSize > 0
    requires Truthy(e) && fs(e) == Some(FileStat(errorTime, errorSize)) && errorSize > 0
    ensures Inspect(l, e, fs) == RunInfo(Some(errorTime), Error)
  {
  }

  /** A job with every optional field written parses back from its line
      with the run information of its files. */
  lemma ParseWritten(line: string, j: Job, fs: FileSystem)
    requires RoundTrips(j) && Layout(j) == line
    requires Truthy(j.logFile) && Truthy(j.errorFile) && Truthy(j.comment)
    ensures var info := Inspect(j.logFile, j.errorFile, fs);
      FromString(line, fs) == Ok(j.(lastRunTime := info.lastRunTime, status := info.status))
  {
    ParseLayout(j, fs);
  }

  /** Parsing the test line gives back every field, and with both files
      present and non-empty the status is `error` and the last run time is
      the error file's. */
  lemma TestLineParses(fs: FileSystem, logTime: int, logSize: nat, errorTime: int, errorSize: nat)
    requires fs("log.txt") == Some(FileStat(logTime, logSize)) && logSize > 0
    requires fs("error.txt") == Some(FileStat(errorTime, errorSize)) && errorSize > 0
    ensures FromString("#suspended: */5 0 1 2 3 bar > log.txt 2> error.txt #comment", fs) ==
      Ok(TestJob.(lastRunTime := Some(errorTime), status := Error))
  {
    TestJobLine();
    TestJobRoundTrips();
    assert Truthy("log.txt") && Truthy("error.txt") && Truthy("comment");
    ParseWritten("#suspended: */5 0 1 2 3 bar > log.txt 2> error.txt #comment", TestJob, fs);
    InspectBoth("log.txt", "error.txt", fs, logTime, logSize, errorTime, errorSize);
  }
}
