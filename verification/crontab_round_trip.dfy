/** Reading back what the job table writes: the installed text, split at
    line feeds and loaded, gives the table's jobs again, in order, under the
    keys of their lines. */
module CrontabRoundTrip {
  import opened Wrappers
  import opened CronErrors
  import opened PhpStrings
  import opened CronJob
  import opened JobRoundTrip
  import opened Crontab

  /** A job whose line survives a reload: it round-trips, its line holds no
      line feed, and the listing filter keeps its line. */
  predicate Reloads(j: Job) {
    RoundTrips(j) && '\n' !in Layout(j) && Kept(Layout(j))
  }

  /** Lines without line feeds, each followed by one, split back into the
      lines and the empty text after the last line feed. */
  lemma SplitTerminated(lines: seq<string>)
    requires |lines| > 0
    requires forall m | 0 <= m < |lines| :: '\n' !in lines[m]
    ensures Explode(Implode(lines, "\n") + "\n", "\n") == lines + [""]
  {
    ImplodeSnoc(lines, "", "\n");
    assert Implode(lines, "\n") + "\n" == Implode(lines, "\n") + "\n" + "";
    ExplodeImplodeSnoc(lines, "", '\n');
    FreeChar("", '\n');
    ExplodeFree("", "\n");
  }

  /** When `keep` accepts every line, the positions are all of them. */
  lemma {:induction false} PositionsAll(lines: seq<string>, keep: string -> bool)
    requires forall m | 0 <= m < |lines| :: keep(lines[m])
    ensures var r := Positions(lines, keep);
      |r| == |lines| && forall m | 0 <= m < |r| :: r[m] == m
    decreases |lines|
  {
    if |lines| > 0 {
      var n := |lines| - 1;
      var init := lines[..n];
      assert forall m | 0 <= m < n :: init[m] == lines[m];
      PositionsAll(init, keep);
      var r0 := Positions(init, keep);
      assert keep(lines[n]);
      assert Positions(lines, keep) == r0 + [n];
    }
  }

  /** The table's lines followed by the empty tail: the positions are those
      of the table's lines. */
  lemma PositionsTerminated(lines: seq<string>, keep: string -> bool)
    requires forall m | 0 <= m < |lines| :: keep(lines[m])
    requires !keep("")
    ensures var r := Positions(lines + [""], keep);
      |r| == |lines| && forall m | 0 <= m < |r| :: r[m] == m
  {
    var all := lines + [""];
    assert all[..|lines|] == lines;
    PositionsAll(lines, keep);
  }

  /** The text a table of jobs with commands and no line feeds renders
      splits into the jobs' lines and an empty tail. */
  lemma RenderedLines(t: Table)
    requires |t.entries| > 0
    requires forall m | 0 <= m < |t.entries| :: t.entries[m].1.command != "" && '\n' !in Layout(t.entries[m].1)
    ensures RenderTable(t).Ok?
    ensures Explode(RenderTable(t).value, "\n") == TableLines(t.entries) + [""]
  {
    SplitTerminated(TableLines(t.entries));
  }

  /** Lines that `keep` accepts and that all parse, then an empty tail that
      `keep` rejects, load as those lines' jobs under the keys of their
      positions. */
  lemma LoadAllLines(lines: seq<string>, keep: string -> bool, parse: string -> Result<Job, CronError>)
    requires forall m | 0 <= m < |lines| :: keep(lines[m]) && parse(lines[m]).Ok?
    requires !keep("")
    ensures LoadLines(lines + [""], keep, parse).Ok?
    ensures var e := LoadLines(lines + [""], keep, parse).value;
      && |e| == |lines|
      && forall m | 0 <= m < |lines| :: e[m] == (LineKey(m), parse(lines[m]).value)
  {
    var all := lines + [""];
    PositionsTerminated(lines, keep);
    assert forall m | 0 <= m < |lines| :: all[m] == lines[m];
  }

  /** A listing made of kept lines that all parse, then an empty tail, loads
      as those lines' jobs under the keys of their positions. */
  lemma LoadKeptLines(text: string, lines: seq<string>, fs: FileSystem)
    requires Explode(text, "\n") == lines + [""]
    requires forall m | 0 <= m < |lines| :: Kept(lines[m]) && FromString(lines[m], fs).Ok?
    ensures Load(Listed(text), fs).Ok?
    ensures var e := Load(Listed(text), fs).value.entries;
      && |e| == |lines|
      && forall m | 0 <= m < |lines| :: e[m] == (LineKey(m), FromString(lines[m], fs).value)
  {
    TrimFixpoint("");
    assert forall m | 0 <= m < |lines| :: Kept(lines[m]) && Parser(fs)(lines[m]).Ok?;
    LoadAllLines(lines, Kept, Parser(fs));
    LoadListed(text, fs);
  }

  /** The line of a reloadable job passes the filter and parses back to it. */
  lemma ReloadLine(j: Job, fs: FileSystem)
    requires Reloads(j)
    ensures Kept(Layout(j)) && FromString(Layout(j), fs).Ok?
    ensures SameFields(FromString(Layout(j), fs).value, j)
  {
    RoundTrip(j, fs);
  }

  /** `r` is a table holding the jobs of `e` in order under the keys `l0`,
      `l1`, ..., each with the fields written in its line. */
  predicate Reloaded(r: Result<Table, CronError>, e: seq<(Key, Job)>) {
    && r.Ok?
    && |r.value.entries| == |e|
    && forall m | 0 <= m < |e| :: r.value.entries[m].0 == LineKey(m) && SameFields(r.value.entries[m].1, e[m].1)
  }

  /** A listing made of the lines of reloadable jobs, then an empty tail,
      loads as those jobs. */
  lemma LoadJobLines(text: string, e: seq<(Key, Job)>, fs: FileSystem)
    requires Explode(text, "\n") == TableLines(e) + [""]
    requires forall m | 0 <= m < |e| :: Reloads(e[m].1)
    ensures Reloaded(Load(Listed(text), fs), e)
  {
    var lines := TableLines(e);
    forall m | 0 <= m < |lines|
      ensures Kept(lines[m]) && FromString(lines[m], fs).Ok?
      ensures SameFields(FromString(lines[m], fs).value, e[m].1)
    {
      ReloadLine(e[m].1, fs);
    }
    LoadKeptLines(text, lines, fs);
  }

  /** Loading the text a table of reloadable jobs renders gives those jobs
      back, in order, under the keys `l0`, `l1`, ...: same schedule,
      command, suspension and written optional fields. */
  lemma ReloadTable(t: Table, fs: FileSystem)
    requires |t.entries| > 0
    requires forall m | 0 <= m < |t.entries| :: Reloads(t.entries[m].1)
    ensures RenderTable(t).Ok?
    ensures Reloaded(Load(Listed(RenderTable(t).value), fs), t.entries)
  {
    RenderedLines(t);
    LoadJobLines(RenderTable(t).value, t.entries, fs);
  }

  /** A lone line feed splits into two empty lines. */
  lemma SplitNewline()
    ensures Explode("\n", "\n") == ["", ""]
  {
    assert "\n" == "" + "\n" + "";
    ExplodeAtChar("", '\n', "");
    FreeChar("", '\n');
    ExplodeFree("", "\n");
  }

  /** Lines `keep` rejects all load as no entries. */
  lemma LoadNothing(lines: seq<string>, keep: string -> bool, parse: string -> Result<Job, CronError>)
    requires forall m | 0 <= m < |lines| :: !keep(lines[m])
    ensures LoadLines(lines, keep, parse) == Ok([])
  {
    PositionsNone(lines, keep);
  }

  /** A listing of two empty lines loads as an empty table. */
  lemma LoadBlank(text: string, fs: FileSystem)
    requires Explode(text, "\n") == ["", ""]
    ensures Load(Listed(text), fs) == Ok(Table([], 0))
  {
    TrimFixpoint("");
    LoadNothing(["", ""], Kept, Parser(fs));
    LoadListed(text, fs);
  }

  /** An empty table writes a lone line feed, which loads as an empty table. */
  lemma ReloadEmpty(t: Table, fs: FileSystem)
    requires t.entries == []
    ensures RenderTable(t) == Ok("\n")
    ensures Load(Listed("\n"), fs) == Ok(Table([], 0))
  {
    SplitNewline();
    LoadBlank("\n", fs);
  }
}
