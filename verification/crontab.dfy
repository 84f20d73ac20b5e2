/** The in-memory job table of `src/Crontab.php`: the filter and keying
    applied to the scheduler's listing, lookup, `add` and `remove`, and the
    text every mutation hands to the installer. The scheduler process is a
    parameter: its listing is an input value and its install step a
    callback whose calls are recorded. */
module Crontab {
  import opened Wrappers
  import opened CronErrors
  import opened PhpStrings
  import opened CronJob

  // ---------------------------------------------------------------------
  // Keys and the table

  /** A key of the PHP array holding the jobs: a string key `"l<i>"` given at
      load time, or an integer key handed out by `$jobs[] = ...`. */
  datatype Key = Named(name: string) | Numbered(index: nat)

  /** The key of the line at 0-based position `i` of the listing. */
  function LineKey(i: nat): (k: Key)
    ensures k.Named? && |k.name| >= 2 && k.name[0] == 'l'
  {
    Named("l" + NatToString(i))
  }

  /** The ordered array of jobs and PHP's next free integer key, which
      starts at 0 and only grows, even when entries are removed. */
  datatype Table = Table(entries: seq<(Key, Job)>, nextIndex: nat)

  /** `array_key_exists($k, $jobs)`. */
  predicate HasKey(entries: seq<(Key, Job)>, k: Key) {
    exists m | 0 <= m < |entries| :: entries[m].0 == k
  }

  /** No key occurs twice. */
  predicate DistinctKeys(entries: seq<(Key, Job)>) {
    forall m, n | 0 <= m < n < |entries| :: entries[m].0 != entries[n].0
  }

  /** The array invariant: keys are distinct and every integer key lies
      below the next free one. */
  predicate Valid(t: Table) {
    && DistinctKeys(t.entries)
    && forall m | 0 <= m < |t.entries| :: t.entries[m].0.Numbered? ==> t.entries[m].0.index < t.nextIndex
  }

  /** Different line positions give different keys. */
  lemma LineKeyInjective(a: nat, b: nat)
    requires LineKey(a) == LineKey(b)
    ensures a == b
  {
    assert NatToString(a) == LineKey(a).name[1..];
    assert NatToString(b) == LineKey(b).name[1..];
    NatToStringInjective(a, b);
  }

  // ---------------------------------------------------------------------
  // The load filter

  /** A character PCRE's `\s` matches: space, tab, line feed, vertical tab,
      form feed, carriage return. */
  predicate IsRegexSpace(c: char) {
    c == ' ' || c == '\t' || c == '\n' || c == '\U{B}' || c == '\U{C}' || c == '\r'
  }

  /** A character `[a-z0-9_]` matches under the `i` flag. */
  predicate IsWordChar(c: char) {
    ('a' <= c <= 'z') || ('A' <= c <= 'Z') || ('0' <= c <= '9') || c == '_'
  }

  /** The end of the longest run of `\s` starting at `i`. */
  function SpanSpaces(s: string, i: nat): (r: nat)
    requires i <= |s|
    ensures i <= r <= |s|
    ensures forall m | i <= m < r :: IsRegexSpace(s[m])
    ensures r == |s| || !IsRegexSpace(s[r])
    decreases |s| - i
  {
    if i < |s| && IsRegexSpace(s[i]) then SpanSpaces(s, i + 1) else i
  }

  /** The end of the longest run of `[a-z0-9_]` starting at `i`. */
  function SpanWord(s: string, i: nat): (r: nat)
    requires i <= |s|
    ensures i <= r <= |s|
    ensures forall m | i <= m < r :: IsWordChar(s[m])
    ensures r == |s| || !IsWordChar(s[r])
    decreases |s| - i
  {
    if i < |s| && IsWordChar(s[i]) then SpanWord(s, i + 1) else i
  }

  /** `preg_match('/^\s*[a-z0-9_]+\s*=/i', $line)`, matched greedily: the
      two character classes are disjoint, so no backtracking can help. */
  predicate LooksLikeAssignment(line: string) {
    var i := SpanSpaces(line, 0);
    var j := SpanWord(line, i);
    var k := SpanSpaces(line, j);
    i < j && k < |line| && line[k] == '='
  }

  predicate SpacesIn(s: string, a: int, b: int)
    requires 0 <= a <= b <= |s|
  {
    forall m | a <= m < b :: IsRegexSpace(s[m])
  }

  predicate WordIn(s: string, a: int, b: int)
    requires 0 <= a <= b <= |s|
  {
    forall m | a <= m < b :: IsWordChar(s[m])
  }

  /** The language of the pattern itself: spaces, a non-empty word, spaces,
      then `=`. */
  ghost predicate AssignmentShape(line: string) {
    exists i, j, k | 0 <= i < j <= k < |line| ::
      SpacesIn(line, 0, i) && WordIn(line, i, j) && SpacesIn(line, j, k) && line[k] == '='
  }

  /** A run of `\s` that cannot be extended is the one `SpanSpaces` finds. */
  lemma SpanSpacesEnd(s: string, a: nat, b: nat)
    requires a <= b <= |s| && SpacesIn(s, a, b)
    requires b == |s| || !IsRegexSpace(s[b])
    ensures SpanSpaces(s, a) == b
  {
  }

  /** A run of word characters that cannot be extended is the one
      `SpanWord` finds. */
  lemma SpanWordEnd(s: string, a: nat, b: nat)
    requires a <= b <= |s| && WordIn(s, a, b)
    requires b == |s| || !IsWordChar(s[b])
    ensures SpanWord(s, a) == b
  {
  }

  /** A line of the pattern's shape, with its spaces, word and spaces ending
      at `i`, `j` and `k`, is one the greedy matcher accepts. */
  lemma ShapeMatches(line: string, i: nat, j: nat, k: nat)
    requires i < j <= k < |line|
    requires SpacesIn(line, 0, i) && WordIn(line, i, j) && SpacesIn(line, j, k) && line[k] == '='
    ensures LooksLikeAssignment(line)
  {
    assert IsWordChar(line[i]);
    SpanSpacesEnd(line, 0, i);
    if j < k {
      assert IsRegexSpace(line[j]);
    }
    SpanWordEnd(line, i, j);
    SpanSpacesEnd(line, j, k);
  }

  /** The greedy matcher accepts exactly the lines of the pattern's shape. */
  lemma AssignmentMatch(line: string)
    ensures LooksLikeAssignment(line) <==> AssignmentShape(line)
  {
    var i := SpanSpaces(line, 0);
    var j := SpanWord(line, i);
    var k := SpanSpaces(line, j);
    if LooksLikeAssignment(line) {
      assert SpacesIn(line, 0, i) && WordIn(line, i, j) && SpacesIn(line, j, k);
    }
    if AssignmentShape(line) {
      var i', j', k' :| 0 <= i' < j' <= k' < |line| &&
        SpacesIn(line, 0, i') && WordIn(line, i', j') && SpacesIn(line, j', k') && line[k'] == '=';
      ShapeMatches(line, i', j', k');
    }
  }

  /** The `array_filter` callback: the line is not blank, is the suspension
      sentinel or no `#` comment, and is no variable assignment. */
  predicate Kept(line: string) {
    && Trim(line) != ""
    && (StartsWith(line, SuspendedPrefix) || !StartsWith(line, "#"))
    && !LooksLikeAssignment(line)
  }

  /** A line passes the filter iff it is not blank, is the sentinel line or
      no `#` comment, and does not match `^\s*[a-z0-9_]+\s*=`. */
  lemma KeptShape(line: string)
    ensures Kept(line) <==>
      && Trim(line) != ""
      && (StartsWith(line, SuspendedPrefix) || !StartsWith(line, "#"))
      && !AssignmentShape(line)
  {
    AssignmentMatch(line);
  }

  // ---------------------------------------------------------------------
  // Loading

  /** The positions of the lines `keep` accepts, in order: what survives
      `array_filter`, which keeps each line's original index. */
  function Positions(lines: seq<string>, keep: string -> bool): (r: seq<nat>)
    ensures forall m | 0 <= m < |r| :: r[m] < |lines| && keep(lines[r[m]])
    ensures forall m, n | 0 <= m < n < |r| :: r[m] < r[n]
    decreases |lines|
  {
    if |lines| == 0 then []
    else
      var n := |lines| - 1;
      var init := Positions(lines[..n], keep);
      assert forall k | 0 <= k < n :: lines[..n][k] == lines[k];
      if keep(lines[n]) then init + [n] else init
  }

  /** Every line `keep` accepts has its position listed. */
  lemma {:induction false} PositionsComplete(lines: seq<string>, keep: string -> bool, k: nat)
    requires k < |lines| && keep(lines[k])
    ensures k in Positions(lines, keep)
    decreases |lines|
  {
    var n := |lines| - 1;
    var init := lines[..n];
    if k < n {
      assert init[k] == lines[k];
      PositionsComplete(init, keep, k);
    }
  }

  /** When `keep` accepts no line, there are no positions. */
  lemma PositionsNone(lines: seq<string>, keep: string -> bool)
    requires forall m | 0 <= m < |lines| :: !keep(lines[m])
    ensures Positions(lines, keep) == []
  {
  }

  /** The lines at the given positions. */
  function Pick(lines: seq<string>, ks: seq<nat>): (r: seq<string>)
    requires forall m | 0 <= m < |ks| :: ks[m] < |lines|
    ensures |r| == |ks| && forall m | 0 <= m < |ks| :: r[m] == lines[ks[m]]
  {
    seq(|ks|, m requires 0 <= m < |ks| => lines[ks[m]])
  }

  /** Each job under the key of its line's position. */
  function Keyed(ks: seq<nat>, jobs: seq<Job>): (r: seq<(Key, Job)>)
    requires |ks| == |jobs|
    ensures |r| == |ks| && forall m | 0 <= m < |ks| :: r[m] == (LineKey(ks[m]), jobs[m])
  {
    seq(|ks|, m requires 0 <= m < |ks| => (LineKey(ks[m]), jobs[m]))
  }

  /** The constructor's loop: the lines `keep` accepts are parsed in order
      and each job is stored under the key of its line's position in the
      unfiltered split; the first line that does not parse aborts the loop. */
  function LoadLines(lines: seq<string>, keep: string -> bool, parse: string -> Result<Job, CronError>)
    : (r: Result<seq<(Key, Job)>, CronError>)
    ensures r.Ok? <==> forall k | 0 <= k < |lines| && keep(lines[k]) :: parse(lines[k]).Ok?
    ensures r.Err? ==> exists k | 0 <= k < |lines| :: keep(lines[k]) && parse(lines[k]) == Err(r.error)
    ensures r.Ok? ==>
      var ks := Positions(lines, keep);
      && |r.value| == |ks|
      && forall m | 0 <= m < |ks| :: r.value[m] == (LineKey(ks[m]), parse(lines[ks[m]]).value)
    ensures r.Ok? ==> DistinctKeys(r.value)
  {
    var ks := Positions(lines, keep);
    var parsed := MapResult(Pick(lines, ks), parse);
    PickedOutcome(lines, keep, parse);
    if parsed.Err? then Err(parsed.error)
    else
      KeyedDistinct(ks, parsed.value);
      Ok(Keyed(ks, parsed.value))
  }

  /** A listing whose kept lines all parse loads as the table of them. */
  lemma LoadListed(text: string, fs: FileSystem)
    requires LoadLines(Explode(text, "\n"), Kept, Parser(fs)).Ok?
    ensures Load(Listed(text), fs) == Ok(Table(LoadLines(Explode(text, "\n"), Kept, Parser(fs)).value, 0))
  {
  }

  /** Parsing the picked lines succeeds exactly when every line `keep`
      accepts parses, and a failure is the failure of one such line. */
  lemma PickedOutcome(lines: seq<string>, keep: string -> bool, parse: string -> Result<Job, CronError>)
    ensures var r := MapResult(Pick(lines, Positions(lines, keep)), parse);
      && (r.Ok? <==> forall k | 0 <= k < |lines| && keep(lines[k]) :: parse(lines[k]).Ok?)
      && (r.Err? ==> exists k | 0 <= k < |lines| :: keep(lines[k]) && parse(lines[k]) == Err(r.error))
  {
    var ks := Positions(lines, keep);
    var kept := Pick(lines, ks);
    var r := MapResult(kept, parse);
    if r.Err? {
      var m :| 0 <= m < |kept| && parse(kept[m]) == Err(r.error);
      assert keep(lines[ks[m]]);
    }
    if r.Ok? {
      forall k | 0 <= k < |lines| && keep(lines[k])
        ensures parse(lines[k]).Ok?
      {
        PositionsComplete(lines, keep, k);
        var m :| 0 <= m < |ks| && ks[m] == k;
        assert parse(kept[m]).Ok?;
      }
    }
  }

  /** `Job::fromString` against the given file stats, as a function value. */
  function Parser(fs: FileSystem): string -> Result<Job, CronError> {
    line => FromString(line, fs)
  }

  /** The outcome of `crontab -l`: its standard output, or its error output. */
  datatype Listing = Listed(output: string) | ListError(errorOutput: string)

  /** Every line the filter keeps parses. */
  predicate KeptLinesParse(lines: seq<string>, fs: FileSystem) {
    forall k | 0 <= k < |lines| && Kept(lines[k]) :: FromString(lines[k], fs).Ok?
  }

  /** The constructor: fails with the process's error output (or a fixed text
      when that is `""` or `"0"`) when listing fails. Otherwise it splits the
      output at line feeds and loads the lines `Kept` accepts; a kept line is
      never empty, so a failure is always a short line. The loaded table
      holds no integer key, so the first `add` uses key 0. */
  function Load(listing: Listing, fs: FileSystem): (r: Result<Table, CronError>)
    ensures listing.ListError? ==>
      r == Err(ListFailed(if Truthy(listing.errorOutput) then listing.errorOutput else "Execution error"))
    ensures listing.Listed? ==>
      var lines := Explode(listing.output, "\n");
      (r.Ok? <==> KeptLinesParse(lines, fs))
    ensures listing.Listed? && r.Err? ==> r.error == TooFewFields
    ensures listing.Listed? && r.Ok? ==>
      var lines := Explode(listing.output, "\n");
      var ks := Positions(lines, Kept);
      && |r.value.entries| == |ks|
      && forall m | 0 <= m < |ks| :: r.value.entries[m] == (LineKey(ks[m]), FromString(lines[ks[m]], fs).value)
    ensures r.Ok? ==> r.value.nextIndex == 0 && Valid(r.value)
  {
    match listing
    case ListError(e) => Err(ListFailed(if Truthy(e) then e else "Execution error"))
    case Listed(text) =>
      var lines := Explode(text, "\n");
      var loaded := LoadLines(lines, Kept, Parser(fs));
      LoadedLines(lines, fs);
      if loaded.Err? then Err(loaded.error) else Ok(Table(loaded.value, 0))
  }

  /** The constructor's loop over the split listing with the real filter and
      parser: it fails only on a short line, and its entries form a valid
      table with no integer key. */
  lemma LoadedLines(lines: seq<string>, fs: FileSystem)
    ensures var r := LoadLines(lines, Kept, Parser(fs));
      && (r.Ok? <==> KeptLinesParse(lines, fs))
      && (r.Err? ==> r.error == TooFewFields)
      && (r.Ok? ==>
            var ks := Positions(lines, Kept);
            && |r.value| == |ks|
            && forall m | 0 <= m < |ks| :: r.value[m] == (LineKey(ks[m]), FromString(lines[ks[m]], fs).value))
      && (r.Ok? ==> Valid(Table(r.value, 0)))
  {
    var r := LoadLines(lines, Kept, Parser(fs));
    if r.Err? {
      var k :| 0 <= k < |lines| && Kept(lines[k]) && Parser(fs)(lines[k]) == Err(r.error);
      TrimFixpoint("");
      assert lines[k] != "";
    }
  }

  /** Keys made from increasing positions are distinct. */
  lemma KeyedDistinct(ks: seq<nat>, jobs: seq<Job>)
    requires |ks| == |jobs|
    requires forall m, n | 0 <= m < n < |ks| :: ks[m] < ks[n]
    ensures DistinctKeys(Keyed(ks, jobs))
  {
    var e := Keyed(ks, jobs);
    forall m, n | 0 <= m < n < |e|
      ensures e[m].0 != e[n].0
    {
      if e[m].0 == e[n].0 {
        LineKeyInjective(ks[m], ks[n]);
      }
    }
  }

  // ---------------------------------------------------------------------
  // Queries

  /** The job under `k`, if any. */
  function Lookup(entries: seq<(Key, Job)>, k: Key): (r: Option<Job>)
    ensures r.None? <==> !HasKey(entries, k)
    ensures r.Some? ==> exists m | 0 <= m < |entries| :: entries[m] == (k, r.value)
    decreases |entries|
  {
    if |entries| == 0 then None
    else if entries[0].0 == k then Some(entries[0].1)
    else
      var r := Lookup(entries[1..], k);
      assert forall m | 0 <= m < |entries| - 1 :: entries[1..][m] == entries[m + 1];
      assert HasKey(entries, k) ==> HasKey(entries[1..], k);
      r
  }

  /** Under distinct keys the lookup of an entry's key finds that entry. */
  lemma {:induction false} LookupAt(entries: seq<(Key, Job)>, m: nat)
    requires DistinctKeys(entries)
    requires m < |entries|
    ensures Lookup(entries, entries[m].0) == Some(entries[m].1)
    decreases m
  {
    if m > 0 {
      assert entries[0].0 != entries[m].0;
      assert entries[1..][m - 1] == entries[m];
      LookupAt(entries[1..], m - 1);
    }
  }

  /** `get($index)`: the job under `k`; fails when the key is absent. */
  function Get(t: Table, k: Key): (r: Result<Job, CronError>)
    ensures r.Ok? <==> HasKey(t.entries, k)
    ensures r.Ok? ==> exists m | 0 <= m < |t.entries| :: t.entries[m] == (k, r.value)
    ensures r.Err? ==> r.error == UndefinedJob
  {
    match Lookup(t.entries, k)
    case None => Err(UndefinedJob)
    case Some(j) => Ok(j)
  }

  /** In a valid table every entry is what `get` returns for its key. */
  lemma GetEntry(t: Table, m: nat)
    requires Valid(t) && m < |t.entries|
    ensures Get(t, t.entries[m].0) == Ok(t.entries[m].1)
  {
    LookupAt(t.entries, m);
  }

  // ---------------------------------------------------------------------
  // Rendering and installing

  /** Every job's line, in table order; fails on the first empty command. */
  function RenderLines(entries: seq<(Key, Job)>): (r: Result<seq<string>, CronError>)
  {
    MapResult(entries, (e: (Key, Job)) => ToString(e.1))
  }

  /** Rendering fails exactly when some job has no command; otherwise line
      `m` is the line of job `m`. */
  lemma RenderLinesSpec(entries: seq<(Key, Job)>)
    ensures var r := RenderLines(entries);
      && (r.Ok? <==> forall m | 0 <= m < |entries| :: entries[m].1.command != "")
      && (r.Err? ==> r.error == EmptyCommand)
      && (r.Ok? ==> |r.value| == |entries| && forall m | 0 <= m < |entries| :: ToString(entries[m].1) == Ok(r.value[m]))
  {
  }

  /** The canonical lines of a table's jobs, in order. */
  function TableLines(e: seq<(Key, Job)>): (r: seq<string>)
    ensures |r| == |e| && forall m | 0 <= m < |e| :: r[m] == Layout(e[m].1)
  {
    seq(|e|, m requires 0 <= m < |e| => Layout(e[m].1))
  }

  /** The text `write` puts in the file it installs: every line followed by
      a line feed, so an empty table gives a lone line feed. */
  function RenderTable(t: Table): (r: Result<string, CronError>)
    ensures r.Ok? <==> forall m | 0 <= m < |t.entries| :: t.entries[m].1.command != ""
    ensures r.Err? ==> r.error == EmptyCommand
    ensures r.Ok? ==> r.value == Implode(TableLines(t.entries), "\n") + "\n"
    ensures t.entries == [] ==> r == Ok("\n")
    ensures r.Ok? ==> |r.value| > 0 && r.value[|r.value| - 1] == '\n'
  {
    RenderLinesSpec(t.entries);
    match RenderLines(t.entries)
    case Err(e) => Err(e)
    case Ok(lines) =>
      assert lines == TableLines(t.entries);
      var text := Implode(lines, "\n") + "\n";
      assert text[|text| - 1] == '\n';
      assert t.entries == [] ==> lines == [] && text == "\n";
      Ok(text)
  }

  /** The install step (`crontab <file>`): true when it succeeds. */
  type Installer = string -> bool

  /** What a `write` did: the texts handed to the installer (none or one)
      and whether it threw. */
  datatype Written = Written(installed: seq<string>, outcome: Outcome<CronError>)

  /** `write()`: renders the whole table and installs it in one call; a job
      without a command throws before anything is installed, and a failed
      install throws `Cannot save jobs`. */
  function Write(t: Table, install: Installer): (w: Written)
    ensures RenderTable(t).Err? ==> w == Written([], Fail(EmptyCommand))
    ensures RenderTable(t).Ok? ==> w.installed == [RenderTable(t).value]
    ensures RenderTable(t).Ok? ==> (w.outcome.Pass? <==> install(RenderTable(t).value))
    ensures w.outcome.Fail? && RenderTable(t).Ok? ==> w.outcome.error == CannotSave
  {
    match RenderTable(t)
    case Err(e) => Written([], Fail(e))
    case Ok(text) => Written([text], if install(text) then Pass else Fail(CannotSave))
  }

  // ---------------------------------------------------------------------
  // Mutations

  /** A mutated table together with what the write that followed did. The
      table is the mutated one whatever the write's outcome. */
  datatype Mutation = Mutation(table: Table, installed: seq<string>, outcome: Outcome<CronError>)

  /** The mutated table, then the write of it. */
  function Persist(t: Table, install: Installer): (r: Mutation)
    ensures r.table == t
    ensures Written(r.installed, r.outcome) == Write(t, install)
  {
    var w := Write(t, install);
    Mutation(t, w.installed, w.outcome)
  }

  /** The in-memory half of `add`: the job goes last under the next integer
      key, which is then used up. */
  function Append(t: Table, job: Job): (u: Table)
  {
    Table(t.entries + [(Numbered(t.nextIndex), job)], t.nextIndex + 1)
  }

  /** `add($job)`: appends the job, then writes the whole table; the job
      stays in the table even when the write fails. */
  function Add(t: Table, job: Job, install: Installer): (r: Mutation)
    ensures r.table == Append(t, job)
    ensures Written(r.installed, r.outcome) == Write(Append(t, job), install)
  {
    Persist(Append(t, job), install)
  }

  /** The entries without the one under `k`, order kept. */
  function Without(entries: seq<(Key, Job)>, k: Key): (r: seq<(Key, Job)>)
    decreases |entries|
  {
    if |entries| == 0 then []
    else
      var rest := Without(entries[1..], k);
      if entries[0].0 == k then rest else [entries[0]] + rest
  }

  /** The in-memory half of `remove` (`unset`): the entry under `k` goes,
      the integer-key counter stays. */
  function Delete(t: Table, k: Key): (u: Table)
  {
    Table(Without(t.entries, k), t.nextIndex)
  }

  /** `remove($index)`: fails with the table untouched and nothing written
      when the key is absent; otherwise deletes the entry, then writes the
      whole table; the entry stays deleted even when the write fails. */
  function Remove(t: Table, k: Key, install: Installer): (r: Mutation)
    ensures !HasKey(t.entries, k) ==> r == Mutation(t, [], Fail(UndefinedJob))
    ensures HasKey(t.entries, k) ==> r.table == Delete(t, k)
    ensures HasKey(t.entries, k) ==> Written(r.installed, r.outcome) == Write(Delete(t, k), install)
  {
    if !HasKey(t.entries, k) then Mutation(t, [], Fail(UndefinedJob))
    else Persist(Delete(t, k), install)
  }

  // ---------------------------------------------------------------------
  // Properties of the mutations

  /** `add` puts the job last under a key no entry of a valid table holds,
      keeps every earlier entry in place, and keeps the table valid. */
  lemma AppendValid(t: Table, job: Job)
    requires Valid(t)
    ensures !HasKey(t.entries, Numbered(t.nextIndex))
    ensures Append(t, job).entries == t.entries + [(Numbered(t.nextIndex), job)]
    ensures Valid(Append(t, job))
  {
    var u := Append(t, job);
    var n := |t.entries|;
    assert forall m | 0 <= m < n :: u.entries[m] == t.entries[m];
  }

  /** After `add` the job is found under its key, and every other key finds
      what it found before. */
  lemma AppendThenGet(t: Table, job: Job, k: Key)
    requires Valid(t)
    ensures Get(Append(t, job), Numbered(t.nextIndex)) == Ok(job)
    ensures k != Numbered(t.nextIndex) ==> Get(Append(t, job), k) == Get(t, k)
  {
    var u := Append(t, job);
    var n := |t.entries|;
    AppendValid(t, job);
    LookupAt(u.entries, n);
    if k != Numbered(t.nextIndex) {
      if HasKey(t.entries, k) {
        var m :| 0 <= m < n && t.entries[m].0 == k;
        assert u.entries[m] == t.entries[m];
        LookupAt(t.entries, m);
        LookupAt(u.entries, m);
      } else {
        assert !HasKey(u.entries, k);
      }
    }
  }

  /** Removing an absent key changes nothing. */
  lemma {:induction false} WithoutAbsent(entries: seq<(Key, Job)>, k: Key)
    requires !HasKey(entries, k)
    ensures Without(entries, k) == entries
    decreases |entries|
  {
    if |entries| > 0 {
      assert forall m | 0 <= m < |entries| - 1 :: entries[1..][m] == entries[m + 1];
      WithoutAbsent(entries[1..], k);
      assert entries == [entries[0]] + entries[1..];
    }
  }

  /** Under distinct keys, `Without` cuts out exactly the entry at the key's
      position. */
  lemma {:induction false} WithoutAt(entries: seq<(Key, Job)>, m: nat)
    requires DistinctKeys(entries)
    requires m < |entries|
    ensures Without(entries, entries[m].0) == entries[..m] + entries[m + 1..]
    decreases m
  {
    var k := entries[m].0;
    var rest := entries[1..];
    assert forall n | 0 <= n < |rest| :: rest[n] == entries[n + 1];
    if m == 0 {
      WithoutAbsent(rest, k);
    } else {
      WithoutAt(rest, m - 1);
      assert entries[..m] == [entries[0]] + rest[..m - 1];
      assert entries[m + 1..] == rest[m..];
    }
  }

  /** `remove` of the key at position `m` of a valid table deletes exactly
      that entry, keeps the order of the others, and keeps the table valid. */
  lemma DeleteValid(t: Table, m: nat)
    requires Valid(t) && m < |t.entries|
    ensures Delete(t, t.entries[m].0).entries == t.entries[..m] + t.entries[m + 1..]
    ensures Valid(Delete(t, t.entries[m].0))
  {
    var e := t.entries;
    var u := Delete(t, e[m].0);
    WithoutAt(e, m);
    assert forall n | 0 <= n < m :: u.entries[n] == e[n];
    assert forall n | m <= n < |u.entries| :: u.entries[n] == e[n + 1];
  }

  /** The entries left by `remove` of the key at position `m`: those before
      it in place, those after it moved down by one. */
  lemma DeleteShift(t: Table, m: nat)
    requires Valid(t) && m < |t.entries|
    ensures var u := Delete(t, t.entries[m].0).entries;
      && |u| == |t.entries| - 1
      && (forall n | 0 <= n < m :: u[n] == t.entries[n])
      && (forall n | m <= n < |u| :: u[n] == t.entries[n + 1])
  {
    WithoutAt(t.entries, m);
  }

  /** After `remove` of the key at position `m` that key is absent. */
  lemma DeleteGone(t: Table, m: nat)
    requires Valid(t) && m < |t.entries|
    ensures !HasKey(Delete(t, t.entries[m].0).entries, t.entries[m].0)
  {
    var e := t.entries;
    var u := Delete(t, e[m].0).entries;
    DeleteShift(t, m);
    forall n | 0 <= n < |u|
      ensures u[n].0 != e[m].0
    {
      if n < m {
        assert u[n] == e[n];
      } else {
        assert u[n] == e[n + 1];
      }
    }
  }

  /** After `remove` of the key at position `m`, another key is present
      exactly when it was before. */
  lemma DeleteKeepsKeys(t: Table, m: nat, other: Key)
    requires Valid(t) && m < |t.entries| && other != t.entries[m].0
    ensures HasKey(Delete(t, t.entries[m].0).entries, other) <==> HasKey(t.entries, other)
  {
    var e := t.entries;
    var u := Delete(t, e[m].0).entries;
    DeleteShift(t, m);
    if HasKey(e, other) {
      var p :| 0 <= p < |e| && e[p].0 == other;
      var q := if p < m then p else p - 1;
      assert u[q] == e[p];
    }
    if HasKey(u, other) {
      var q :| 0 <= q < |u| && u[q].0 == other;
      var p := if q < m then q else q + 1;
      assert u[q] == e[p];
    }
  }

  /** After `remove` of the key at position `m`, another key present before
      finds what it found before. */
  lemma DeleteKeepsJob(t: Table, m: nat, p: nat)
    requires Valid(t) && m < |t.entries| && p < |t.entries| && p != m
    ensures Get(Delete(t, t.entries[m].0), t.entries[p].0) == Get(t, t.entries[p].0)
  {
    var e := t.entries;
    var u := Delete(t, e[m].0);
    DeleteShift(t, m);
    DeleteValid(t, m);
    var q := if p < m then p else p - 1;
    assert u.entries[q] == e[p];
    GetEntry(t, p);
    GetEntry(u, q);
  }

  /** After `remove` the key is absent and every other key finds what it
      found before. */
  lemma DeleteThenGet(t: Table, k: Key, other: Key)
    requires Valid(t) && HasKey(t.entries, k)
    ensures Get(Delete(t, k), k) == Err(UndefinedJob)
    ensures other != k ==> Get(Delete(t, k), other) == Get(t, other)
  {
    var e := t.entries;
    var m :| 0 <= m < |e| && e[m].0 == k;
    DeleteGone(t, m);
    if other != k {
      DeleteKeepsKeys(t, m, other);
      if HasKey(e, other) {
        var p :| 0 <= p < |e| && e[p].0 == other;
        DeleteKeepsJob(t, m, p);
      }
    }
  }
}
