/** The round trip between `Job::toString` and `Job::fromString`: which jobs
    come back from their own line unchanged, and how each stage of the tail
    parser undoes one optional field of the renderer. */
module JobRoundTrip {
  import opened Wrappers
  import opened PhpStrings
  import opened CronJob

  /** The jobs whose line parses back to the same written fields: schedule
      fields without spaces, an unsuspended job whose minute is not the bare
      sentinel word, a non-empty trimmed command, and optional fields that are
      trimmed and hold none of the delimiters cut before them. */
  predicate RoundTrips(j: Job) {
    && SpaceFreeSchedule(j)
    && (!j.suspended ==> j.minute != SuspendedMarker)
    && j.command != "" && Trimmed(j.command) && '#' !in j.command && '>' !in j.command
    && (Truthy(j.logFile) ==> Trimmed(j.logFile) && '#' !in j.logFile && '>' !in j.logFile)
    && (Truthy(j.errorFile) ==> Trimmed(j.errorFile) && '#' !in j.errorFile && Free(j.errorFile, "2>"))
    && (Truthy(j.comment) ==> Trimmed(j.comment) && '#' !in j.comment)
  }

  /** `p` carries the fields written in `j`'s line: optional fields that are
      `""` or `"0"` are not written and read back as `""`. */
  predicate SameFields(p: Job, j: Job) {
    && ScheduleFields(p) == ScheduleFields(j)
    && p.command == j.command
    && p.suspended == j.suspended
    && p.logFile == Shown(j.logFile)
    && p.errorFile == Shown(j.errorFile)
    && p.comment == Shown(j.comment)
  }

  /** The padding one stage of the tail parser leaves behind: a space when
      the field it cut was written. */
  function Pad(b: bool): (r: string)
    ensures AllTrimChars(r) && |r| <= 1
    ensures |r| == 1 ==> r[0] == ' '
  {
    if b then " " else ""
  }

  // ---------------------------------------------------------------------
  // The sentinel

  /** A line that starts with a space-free word other than `#suspended:`
      followed by a space does not carry the sentinel. */
  lemma NotSentinel(m: string, t: string)
    requires ' ' !in m && m != SuspendedMarker
    ensures !StartsWith(m + " " + t, SuspendedPrefix)
  {
    var s := m + " " + t;
    var n := |SuspendedPrefix|;
    assert SuspendedPrefix == SuspendedMarker + " ";
    assert ' ' !in SuspendedMarker;
    if |s| >= n {
      if |m| < n - 1 {
        assert s[..n][|m|] == ' ' != SuspendedPrefix[|m|];
      } else if |m| == n - 1 {
        var k :| 0 <= k < |m| && m[k] != SuspendedMarker[k];
        assert s[..n][k] != SuspendedPrefix[k];
      } else {
        assert s[..n][n - 1] == m[n - 1] != ' ';
      }
    }
  }

  /** A rendered line carries the sentinel exactly when the job is suspended,
      and removing it leaves the schedule, a space and the body. */
  lemma SuspendedIffSentinel(j: Job)
    requires SpaceFreeSchedule(j)
    requires !j.suspended ==> j.minute != SuspendedMarker
    ensures StartsWith(Layout(j), SuspendedPrefix) <==> j.suspended
    ensures Unsuspend(Layout(j)) == Schedule(j) + " " + Body(j)
  {
    var rest := Schedule(j) + " " + Body(j);
    if j.suspended {
      assert Layout(j) == SuspendedPrefix + rest;
      assert Layout(j)[..|SuspendedPrefix|] == SuspendedPrefix;
      assert Layout(j)[|SuspendedPrefix|..] == rest;
    } else {
      assert Layout(j) == rest;
      var fields := ScheduleFields(j);
      assert fields == [j.minute] + fields[1..];
      ImplodeCons(j.minute, fields[1..], " ");
      var later := Implode(fields[1..], " ");
      assert rest == j.minute + " " + (later + " " + Body(j));
      NotSentinel(j.minute, later + " " + Body(j));
    }
  }

  // ---------------------------------------------------------------------
  // The tail parser undoes the renderer stage by stage

  /** The `#` stage: the comment is cut at the `#` the renderer wrote. */
  lemma PeelComment(w: string, c: string)
    requires '#' !in w
    requires Truthy(c) ==> '#' !in c
    ensures SplitOff(w + Optional("#", c), "#") == (w + Pad(Truthy(c)), Shown(c))
  {
    if Truthy(c) {
      assert w + Optional("#", c) == (w + " ") + ['#'] + c;
      SplitOffAtChar(w + " ", '#', c);
    } else {
      assert w + Optional("#", c) == w;
      FreeChar(w, '#');
      SplitOffFree(w, "#");
    }
  }

  /** The command followed by the rendered log field holds no `2>`. */
  lemma LogFieldFree(cmd: string, l: string)
    requires '>' !in cmd
    requires Truthy(l) ==> '>' !in l
    ensures Free(cmd + Optional("> ", l), "2>")
  {
    FreeWithoutLast(cmd, "2>");
    if Truthy(l) {
      FreeWithoutFirst(" > ", "2>");
      FreeWithoutLast(l, "2>");
      FreeConcatPair(" > ", l, "2>");
      FreeConcatPair(cmd, " > " + l, "2>");
      assert cmd + Optional("> ", l) == cmd + (" > " + l);
    } else {
      assert cmd + Optional("> ", l) == cmd;
    }
  }

  /** A written error field is cut at the `2>` the renderer wrote, which is
      the first one because the text before it ends in a space. */
  lemma CutAtError(v: string, e: string, p: string)
    requires Free(v, "2>") && Free(e, "2>") && '>' !in p
    ensures SplitOff(v + " 2> " + e + p, "2>") == (v + " ", " " + e + p)
  {
    var a := v + " ";
    var b := " " + e + p;
    FreeWithoutLast(" ", "2>");
    FreeConcatPair(v, " ", "2>");
    FirstAfterPair(a, "2>", b);
    FreeWithoutLast(p, "2>");
    FreeConcatPair(" ", e, "2>");
    FreeConcatPair(" " + e, p, "2>");
    assert v + " 2> " + e + p == a + "2>" + b;
    SplitOffAt(a, "2>", b);
  }

  /** Without a written error field there is no `2>` to cut at. */
  lemma CutNoError(v: string, p: string)
    requires Free(v, "2>") && '>' !in p
    ensures SplitOff(v + p, "2>") == (v + p, "")
  {
    FreeWithoutLast(p, "2>");
    FreeConcatPair(v, p, "2>");
    SplitOffFree(v + p, "2>");
  }

  /** The `2>` stage: the error file is cut at the `2>` the renderer wrote. */
  lemma PeelError(v: string, e: string, pad: bool)
    requires Free(v, "2>")
    requires Truthy(e) ==> Free(e, "2>")
    ensures SplitOff(v + Optional("2> ", e) + Pad(pad), "2>") ==
      (v + Pad(Truthy(e) || pad), if Truthy(e) then " " + e + Pad(pad) else "")
  {
    if Truthy(e) {
      assert v + Optional("2> ", e) + Pad(pad) == v + " 2> " + e + Pad(pad);
      CutAtError(v, e, Pad(pad));
    } else {
      assert v + Optional("2> ", e) + Pad(pad) == v + Pad(pad);
      CutNoError(v, Pad(pad));
    }
  }

  /** The `>` stage: the log file is cut at the `>` the renderer wrote. */
  lemma PeelLog(cmd: string, l: string, pad: bool)
    requires '>' !in cmd
    requires Truthy(l) ==> '>' !in l
    ensures SplitOff(cmd + Optional("> ", l) + Pad(pad), ">") ==
      (cmd + Pad(Truthy(l) || pad), if Truthy(l) then " " + l + Pad(pad) else "")
  {
    if Truthy(l) {
      assert cmd + Optional("> ", l) + Pad(pad) == (cmd + " ") + ['>'] + (" " + l + Pad(pad));
      SplitOffAtChar(cmd + " ", '>', " " + l + Pad(pad));
    } else {
      assert cmd + Optional("> ", l) + Pad(pad) == cmd + Pad(pad);
      FreeChar(cmd + Pad(pad), '>');
      SplitOffFree(cmd + Pad(pad), ">");
    }
  }

  /** A written optional field comes back from its padded piece by trimming. */
  lemma TrimOptional(x: string, pad: bool)
    requires Truthy(x) ==> Trimmed(x)
    ensures Trim(if Truthy(x) then " " + x + Pad(pad) else "") == Shown(x)
  {
    if Truthy(x) {
      TrimPadded(" ", x, Pad(pad));
    } else {
      TrimFixpoint("");
    }
  }

  /** The tail parser trims the pieces its three cuts leave. */
  lemma PeelStages(tail: string, rest1: string, comment: string, rest2: string, errorFile: string,
                   command: string, logFile: string)
    requires SplitOff(tail, "#") == (rest1, comment)
    requires SplitOff(rest1, "2>") == (rest2, errorFile)
    requires SplitOff(rest2, ">") == (command, logFile)
    ensures Peel(tail) == Pieces(Trim(command), Trim(logFile), Trim(errorFile), Trim(comment))
  {
  }

  /** The three cuts of the tail parser on a rendered body land on the
      delimiters the renderer wrote. */
  lemma CutBody(cmd: string, l: string, e: string, c: string)
    requires '#' !in cmd && '>' !in cmd
    requires Truthy(l) ==> '#' !in l && '>' !in l
    requires Truthy(e) ==> '#' !in e && Free(e, "2>")
    requires Truthy(c) ==> '#' !in c
    ensures var padC := Truthy(c);
      var padE := Truthy(e) || padC;
      var v := cmd + Optional("> ", l);
      var w := v + Optional("2> ", e);
      && SplitOff(w + Optional("#", c), "#") == (w + Pad(padC), Shown(c))
      && SplitOff(w + Pad(padC), "2>") == (v + Pad(padE), if Truthy(e) then " " + e + Pad(padC) else "")
      && SplitOff(v + Pad(padE), ">") ==
           (cmd + Pad(Truthy(l) || padE), if Truthy(l) then " " + l + Pad(padE) else "")
  {
    var padC := Truthy(c);
    var padE := Truthy(e) || padC;
    var v := cmd + Optional("> ", l);
    var w := v + Optional("2> ", e);
    assert '#' !in Optional("> ", l) && '#' !in Optional("2> ", e);
    assert '#' !in w;
    PeelComment(w, c);
    LogFieldFree(cmd, l);
    PeelError(v, e, padC);
    assert w + Pad(padC) == v + Optional("2> ", e) + Pad(padC);
    PeelLog(cmd, l, padE);
  }

  /** Trimming the pieces the cuts leave gives the command and the written
      optional fields. */
  lemma TrimPieces(cmd: string, l: string, e: string, c: string, padL: bool, padE: bool, padC: bool)
    requires Trimmed(cmd)
    requires Truthy(l) ==> Trimmed(l)
    requires Truthy(e) ==> Trimmed(e)
    requires Truthy(c) ==> Trimmed(c)
    ensures Trim(cmd + Pad(padL)) == cmd
    ensures Trim(if Truthy(l) then " " + l + Pad(padE) else "") == Shown(l)
    ensures Trim(if Truthy(e) then " " + e + Pad(padC) else "") == Shown(e)
    ensures Trim(Shown(c)) == Shown(c)
  {
    TrimPadded("", cmd, Pad(padL));
    assert "" + cmd + Pad(padL) == cmd + Pad(padL);
    TrimOptional(l, padE);
    TrimOptional(e, padC);
    if Truthy(c) {
      TrimFixpoint(c);
    } else {
      TrimFixpoint("");
    }
  }

  /** The tail parser returns the command and the written optional fields
      of a rendered body. */
  lemma PeelBody(j: Job)
    requires RoundTrips(j)
    ensures Peel(Body(j)) == Pieces(j.command, Shown(j.logFile), Shown(j.errorFile), Shown(j.comment))
  {
    var cmd, l, e, c := j.command, j.logFile, j.errorFile, j.comment;
    var padC := Truthy(c);
    var padE := Truthy(e) || padC;
    var padL := Truthy(l) || padE;
    var v := cmd + Optional("> ", l);
    var w := v + Optional("2> ", e);
    CutBody(cmd, l, e, c);
    assert Body(j) == w + Optional("#", c);
    PeelStages(Body(j), w + Pad(padC), Shown(c), v + Pad(padE),
               if Truthy(e) then " " + e + Pad(padC) else "",
               cmd + Pad(padL), if Truthy(l) then " " + l + Pad(padE) else "");
    TrimPieces(cmd, l, e, c, padL, padE, padC);
  }

  // ---------------------------------------------------------------------
  // The round trip

  /** A rendered line has the schedule fields as its first five tokens and
      the body as the rest. */
  lemma LayoutTokens(j: Job)
    requires SpaceFreeSchedule(j)
    ensures var parts := Explode(Schedule(j) + " " + Body(j), " ");
      && |parts| >= 6
      && parts[0] == j.minute && parts[1] == j.hour && parts[2] == j.dayOfMonth
      && parts[3] == j.month && parts[4] == j.dayOfWeek
      && Implode(parts[5..], " ") == Body(j)
  {
    ImplodeSnoc(ScheduleFields(j), Body(j), " ");
    ExplodeImplodeSnoc(ScheduleFields(j), Body(j), ' ');
    var parts := Explode(Schedule(j) + " " + Body(j), " ");
    assert parts == ScheduleFields(j) + Explode(Body(j), " ");
    assert parts[5..] == Explode(Body(j), " ");
    ImplodeExplode(Body(j), " ");
  }

  /** The job parsed from a rendered line, field by field. */
  lemma ParseLayout(j: Job, fs: FileSystem)
    requires RoundTrips(j)
    ensures var info := Inspect(Shown(j.logFile), Shown(j.errorFile), fs);
      FromString(Layout(j), fs) ==
        Ok(Job(j.minute, j.hour, j.dayOfMonth, j.month, j.dayOfWeek,
               j.command, Shown(j.logFile), Shown(j.errorFile), Shown(j.comment),
               j.suspended, info.lastRunTime, info.status))
  {
    var line := Layout(j);
    SuspendedIffSentinel(j);
    LayoutTokens(j);
    PeelBody(j);
    FromStringOk(line, fs);
  }

  /** Parsing the rendered line of a job gives it back: same schedule,
      command and suspension, and every optional field that was written. */
  lemma RoundTrip(j: Job, fs: FileSystem)
    requires RoundTrips(j)
    ensures ToString(j).Ok?
    ensures FromString(ToString(j).value, fs).Ok?
    ensures SameFields(FromString(ToString(j).value, fs).value, j)
  {
    ParseLayout(j, fs);
  }

  /** A line that starts with `a + b` starts with `a`. */
  lemma StartsWithShorter(s: string, a: string, b: string)
    requires StartsWith(s, a + b)
    ensures StartsWith(s, a)
  {
    assert s[..|a|] == (a + b)[..|a|];
  }

  /** A line without the sentinel that starts with a job's schedule and a
      space does not have the sentinel word as that job's minute. */
  lemma MinuteNotSentinel(line: string, j: Job)
    requires !StartsWith(line, SuspendedPrefix)
    requires StartsWith(line, Schedule(j) + " ")
    ensures j.minute != SuspendedMarker
  {
    var fields := ScheduleFields(j);
    assert fields == [j.minute] + fields[1..];
    ImplodeCons(j.minute, fields[1..], " ");
    var later := Implode(fields[1..], " ");
    assert Schedule(j) + " " == j.minute + " " + (later + " ");
    StartsWithShorter(line, j.minute + " ", later + " ");
    assert SuspendedMarker + " " == SuspendedPrefix;
  }

  /** Every job parsed from a line, once it has a command, is one of the jobs
      that round-trip: parsing leaves no delimiter inside a field and never
      takes the sentinel word for a minute. */
  lemma ParsedRoundTrips(line: string, fs: FileSystem)
    requires FromString(line, fs).Ok?
    requires FromString(line, fs).value.command != ""
    ensures RoundTrips(FromString(line, fs).value)
  {
    var p := FromString(line, fs).value;
    FromStringFields(line, fs);
    if !p.suspended {
      MinuteNotSentinel(line, p);
    }
  }

  /** Rendering a parsed job and parsing the result changes nothing but
      optional fields equal to `"0"`, which read back as `""`; the run status
      is the same, so parsing after rendering is idempotent up to `Shown`. */
  lemma ReparseStable(line: string, fs: FileSystem)
    requires FromString(line, fs).Ok?
    requires FromString(line, fs).value.command != ""
    ensures var p := FromString(line, fs).value;
      && ToString(p).Ok?
      && FromString(ToString(p).value, fs).Ok?
      && var q := FromString(ToString(p).value, fs).value;
      && SameFields(q, p)
      && q.lastRunTime == p.lastRunTime && q.status == p.status
  {
    var p := FromString(line, fs).value;
    ParsedRoundTrips(line, fs);
    ParseLayout(p, fs);
  }
}
