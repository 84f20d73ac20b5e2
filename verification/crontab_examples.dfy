/** A concrete listing through the load filter. */
module CrontabExamples {
  import opened PhpStrings
  import opened CronJob
  import opened Crontab

  /** A listing with a blank line, an assignment, a plain comment and a
      suspended job. */
  const Sample: seq<string> := ["", "FOO=bar", "#comment", "#suspended: * * * * * x"]

  /** The blank line is dropped. */
  lemma BlankDropped()
    ensures !Kept("")
  {
    TrimFixpoint("");
  }

  /** The assignment is dropped: `FOO` is a word followed by `=`. */
  lemma AssignmentDropped()
    ensures !Kept("FOO=bar")
  {
    var s := "FOO=bar";
    assert SpanSpaces(s, 0) == 0;
    assert SpanWord(s, 3) == 3;
    assert SpanWord(s, 2) == 3;
    assert SpanWord(s, 1) == 3;
    assert SpanWord(s, 0) == 3;
    assert SpanSpaces(s, 3) == 3;
  }

  /** The plain comment is dropped. */
  lemma CommentDropped()
    ensures !Kept("#comment")
  {
    assert "#comment"[..1] == "#";
  }

  /** The suspended job is kept. */
  lemma SuspendedKept()
    ensures Kept("#suspended: * * * * * x")
  {
    var s := "#suspended: * * * * * x";
    assert s[..|SuspendedPrefix|] == SuspendedPrefix;
    assert !IsTrimChar(s[0]) && !IsTrimChar(s[|s| - 1]);
    assert Trimmed(s);
    assert SpanSpaces(s, 0) == 0;
    assert SpanWord(s, 0) == 0;
  }

  /** When `keep` accepts exactly the line at `i`, that is the only position. */
  lemma {:induction false} PositionsSingle(lines: seq<string>, keep: string -> bool, i: nat)
    requires i < |lines| && keep(lines[i])
    requires forall m | 0 <= m < |lines| && m != i :: !keep(lines[m])
    ensures Positions(lines, keep) == [i]
    decreases |lines|
  {
    var n := |lines| - 1;
    var init := lines[..n];
    assert forall m | 0 <= m < n :: init[m] == lines[m];
    if n == i {
      PositionsNone(init, keep);
    } else {
      PositionsSingle(init, keep, i);
    }
  }

  /** Four lines of which `keep` accepts only the last. */
  lemma SampleRejects(lines: seq<string>, keep: string -> bool)
    requires |lines| == 4 && !keep(lines[0]) && !keep(lines[1]) && !keep(lines[2]) && keep(lines[3])
    ensures Positions(lines, keep) == [3]
  {
    PositionsSingle(lines, keep, 3);
  }

  /** The filter's verdict on each line of the sample. */
  lemma SampleVerdicts()
    ensures !Kept(Sample[0]) && !Kept(Sample[1]) && !Kept(Sample[2]) && Kept(Sample[3])
  {
    BlankDropped();
    AssignmentDropped();
    CommentDropped();
    SuspendedKept();
  }

  /** Of the four lines only the suspended job survives, at position 3. */
  lemma SampleFilter()
    ensures Positions(Sample, Kept) == [3]
  {
    SampleVerdicts();
    SampleRejects(Sample, Kept);
  }
}
