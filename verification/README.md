# Cron job codec and job table

A model of the two sequential cores of the PHP cron component
`PE\Component\Cron`:

- **The job line codec** (`src/Job.php`). `Job::fromString` parses one
  crontab line into a job record:
  - it removes a leading `#suspended: `;
  - it splits the line at single spaces, needs six tokens, and takes the
    first five as schedule fields;
  - it cuts the rest, in order, at `#` (comment), `2>` (error file) and `>`
    (log file), trimming each piece;
  - it derives the run status and last run time from the stats of the log
    and error files.

  `Job::toString` renders a record back to its canonical line. `setStatus`
  and `setSuspended` are the two setters with rules of their own.
- **The job table** (`src/Crontab.php`):
  - the constructor filters and keys the lines of `crontab -l`; a line at
    position `i` of the unfiltered split gets the key `"l<i>"`;
  - `all`, `get`, `add` and `remove` work on the ordered key → job array;
  - `write` renders the whole table into the text handed to the installer.

The model is functional. A job is an immutable datatype, and the table is a
sequence of (key, job) pairs plus PHP's next free integer key. Errors are
`Result` values; exceptions become `CronError` variants. The file system the
parser consults is an oracle parameter (`FileSystem`). The scheduler process
appears only as data:
- its listing is an input value (`Listing`);
- its install step is a callback (`Installer`);
- what each mutation handed to the installer is recorded in its result
  (`Mutation`, `Written`).

Modules:

| module | file | models |
|---|---|---|
| `Wrappers` | wrappers.dfy | `Option`, `Result`, `Outcome`, `MapResult` (a loop that stops at the first failure) |
| `CronErrors` | errors.dfy | the exceptions the core throws |
| `PhpStrings` | php_strings.dfy | the PHP built-ins the core relies on: `strpos`, `explode`, `implode`, `trim`, string truthiness, `'l' . $index`, and `list($a, $b) = explode(...)` (`SplitOff`) |
| `CronJob` | job.dfy | `Job`: parsing, rendering, run status, setters |
| `JobRoundTrip` | job_round_trip.dfy | parse after render |
| `JobExamples` | job_examples.dfy | the lines of the repository's job tests |
| `Crontab` | crontab.dfy | `Crontab`: load filter, keys, queries, mutations, rendering |
| `CrontabRoundTrip` | crontab_round_trip.dfy | load after write |
| `CrontabExamples` | crontab_examples.dfy | a listing through the load filter |

Three behaviours of the code that are easy to get wrong:
- **Load keys.** `array_filter` keeps the original indices, so a job's key
  is `"l"` plus its line's position in the *unfiltered* split, not among
  the kept lines (`Crontab.Load`).
- **State after a failed write.** `add` and `remove` change the array before
  `write()` runs, so a failed install leaves the change applied in memory
  (`Crontab.Add`, `Crontab.Remove`).
- **Absent optional fields.** `toString` and the file checks test fields
  with PHP truthiness, so `"0"` counts as absent just like `""`
  (`PhpStrings.Truthy`, `PhpStrings.Shown`).

## Model

| member | source | states |
|---|---|---|
| CronJob.Inspect | src/Job.php:133-155 | status is not `unknown` iff the log file name is truthy, the file exists and its size is non-zero; it is `error` iff, in addition, the error file likewise exists with non-zero size; the last run time is the error file's mtime if its name is truthy and the file exists, else the log file's, else absent |
| CronJob.Peel | src/Job.php:106-131 | the comment is the trimmed text between the first and second `#` of the tail; the command holds neither `#` nor `>`; the log file holds no `#` or `>`; the error file holds no `#` or `2>`; the comment holds no `#`; every piece equals its own trim |
| CronJob.PeelValues | src/Job.php:109-131 | with the tail cut at its first `#`, the error file is the trimmed text between the first and second `2>`; of what precedes the first `2>`, the log file is the trimmed text between the first and second `>` and the command the trimmed text before the first `>`: text after a second `>` or `2>` is dropped, and a `>` after the first `2>` stays in the error file |
| CronJob.FromString | src/Job.php:81-165 | the empty line fails with `EmptyJobLine`; any other line parses iff, after removing a leading `#suspended: `, it holds at least five spaces, and fails otherwise with `TooFewFields`; `suspended` is true iff the line starts with `#suspended: `; the pieces are delimiter-free and trimmed; status and last run time are those the files give |
| CronJob.FromStringFields | src/Job.php:92-131 | the schedule fields of a parsed line hold no space; joined by spaces, followed by one space, they begin the line after the sentinel; of what follows them, the comment is the trimmed text between the first and second `#`, and the error file, log file and command are the pieces `CronJob.PeelValues` names |
| CronJob.SplitSchedule | src/Job.php:98-106 | a text with six space-separated tokens is its first five tokens joined, a space, and the rest joined; the first five hold no space |
| CronJob.TokensLayout | src/Job.php:415-445 | joining the tokens of `toString` by spaces gives the canonical layout: sentinel, schedule, command, then each truthy optional field with its marker |
| CronJob.ToString | src/Job.php:413-446 | fails iff the command is empty, and then with `EmptyCommand`; otherwise gives the canonical layout |
| CronJob.ParseStatus | src/Job.php:366-367 | a name is recognised iff it is one of `unknown`, `success` and `error`, and it denotes the status of that name |
| CronJob.SetStatus | src/Job.php:364-379 | succeeds iff the name is one of the three statuses; the new status carries that name; nothing else changes; otherwise fails with `InvalidStatus` |
| CronJob.SetStatusByName | src/Job.php:364-379 | setting any status by its own name succeeds with exactly that status |
| CronJob.SetSuspended | src/Job.php:402-406 | the flag, true by default, becomes the suspension state; nothing else changes |
| JobRoundTrip.NotSentinel | src/Job.php:93 | a line beginning with a space-free word other than `#suspended:`, then a space, does not start with the sentinel |
| JobRoundTrip.SuspendedIffSentinel | src/Job.php:93-96 | a rendered line starts with the sentinel iff the job is suspended; removing the sentinel leaves schedule, space and body |
| JobRoundTrip.PeelComment | src/Job.php:109-112 | cutting at `#` a body that ends in ` #c` gives the text before it and `c` |
| JobRoundTrip.LogFieldFree | src/Job.php:116-118 | a command and a rendered log field without `#` or `>` hold no `2>` |
| JobRoundTrip.CutAtError | src/Job.php:115-118 | a text `v 2> e p`, with `v` and `e` free of `2>` and `p` free of `>`, is cut into `v ` and ` e p` |
| JobRoundTrip.CutNoError | src/Job.php:115-118 | a text with no `2>` is not cut |
| JobRoundTrip.PeelError | src/Job.php:115-118 | cutting at `2>` a text that ends in ` 2> e` gives the text before it and `e` |
| JobRoundTrip.PeelLog | src/Job.php:121-124 | cutting at `>` a text that ends in ` > l` gives the command and `l` |
| JobRoundTrip.TrimOptional | src/Job.php:127-131 | trimming a piece with at most a padding space around a trimmed field gives the field |
| JobRoundTrip.CutBody | src/Job.php:109-124 | on a rendered body the three cuts land on the delimiters the renderer wrote, leaving the command and each written optional field with its padding |
| JobRoundTrip.TrimPieces | src/Job.php:127-131 | trimming the pieces the cuts leave gives the command and the written optional fields |
| JobRoundTrip.PeelBody | src/Job.php:106-131 | the tail parser applied to a rendered body returns the command and the written optional fields |
| JobRoundTrip.LayoutTokens | src/Job.php:98-106 | the first five space tokens of a rendered line after the sentinel are the schedule fields, and the rest rejoined is the body |
| JobRoundTrip.ParseLayout | src/Job.php:81-165 | parsing a rendered line gives the job's schedule, command and suspension, its written optional fields, and the status the files give |
| JobRoundTrip.RoundTrip | src/Job.php:413-446 | for a job with space-free schedule fields, a minute other than the sentinel word when unsuspended, a non-empty trimmed command without `#`/`>`, and trimmed optional fields without the delimiters cut before them: rendering succeeds and parsing the line gives the same schedule, command, suspension and written optional fields |
| JobRoundTrip.MinuteNotSentinel | src/Job.php:92-98 | a job whose schedule and a space begin a line without the sentinel has a minute other than the sentinel word, so an unsuspended parsed job never has it |
| JobRoundTrip.ParsedRoundTrips | src/Job.php:81-165 | every parsed job with a command meets the round-trip conditions |
| JobRoundTrip.ReparseStable | src/Job.php:81-165 | rendering a parsed job and parsing the line again gives the same schedule, command, suspension and written optional fields (an optional field equal to `"0"` reads back as `""`), and the same run status and last run time |
| JobExamples.NewJobCannotRender | src/Job.php:413-429 | a fresh job fails to render with `EmptyCommand`; with command `foo` it renders `* * * * * foo` (tests/JobTest.php:53-63) |
| JobExamples.TestJobLine | src/Job.php:413-446 | the fully populated test job renders to `#suspended: */5 0 1 2 3 bar > log.txt 2> error.txt #comment` (tests/JobTest.php:86-89) |
| JobExamples.ShortLineRejected | src/Job.php:98-104 | `#suspended: * *` fails with `TooFewFields` (tests/JobTest.php:98-102) |
| JobExamples.TestJobRoundTrips | src/Job.php:413-446 | the test job meets the round-trip conditions |
| JobExamples.TestSchedule | src/Job.php:420-424 | the test job's schedule renders as `*/5 0 1 2 3` |
| JobExamples.ParseWritten | src/Job.php:81-165 | a round-tripping job with every optional field written parses back from its line with the run information of its files |
| JobExamples.TestLineParses | src/Job.php:81-165 | the test line parses back to every field, with status `error` and the error file's mtime when both files exist and are non-empty (tests/JobTest.php:104-125) |
| PhpStrings.Find | src/Job.php:110-122 | `strpos` gives the first position where the needle occurs, and `false` iff the needle occurs nowhere; the `#`, `2>` and `>` tests rely on it |
| PhpStrings.StartsWithFind | src/Job.php:93 | `strpos` returns 0 iff the text starts with the needle, so the prefix tests `0 === strpos(...)` here and at src/Crontab.php:44 are `StartsWith` |
| PhpStrings.Explode | src/Job.php:98 | `explode` returns at least one piece |
| PhpStrings.ExplodePiecesFree | src/Job.php:98 | no piece `explode` returns holds the delimiter |
| PhpStrings.ImplodeExplode | src/Job.php:98-106 | joining the pieces back with the delimiter gives the original text |
| PhpStrings.ExplodeImplodeCons | src/Crontab.php:40 | splitting a join whose first item lacks the delimiter gives that item, then the split of the rest |
| PhpStrings.SplitJoinSnoc | src/Crontab.php:40 | for any join and split where each split takes off a leading item without the delimiter, splitting the join of some lines and a last text gives the lines, then the split of the last |
| PhpStrings.ExplodeImplodeSnoc | src/Crontab.php:40 | splitting, at a character the leading lines do not hold, the lines joined by it gives back those lines, then the pieces of the last |
| PhpStrings.ExplodeCount | src/Job.php:98-99 | the number of pieces is one more than the number of delimiter characters |
| PhpStrings.SplitOff | src/Job.php:110-124 | without the delimiter, the text and `""`; with it, the text before the first occurrence and the text between the first and second (anything after a second is dropped); neither part holds the delimiter |
| PhpStrings.SplitOffAt | src/Job.php:111 | `a + d + b`, with `d` first occurring after `a` and absent from `b`, splits into `a` and `b` |
| PhpStrings.Trim | src/Job.php:127-131 | the result neither starts nor ends with a character `trim` strips; a trimmed text is unchanged |
| PhpStrings.TrimPadded | src/Job.php:127-131 | trimming a trimmed text padded with strippable characters gives the text |
| PhpStrings.NatToStringInjective | src/Crontab.php:50 | distinct indices give distinct decimal texts |
| Crontab.LineKeyInjective | src/Crontab.php:49-51 | different line positions give different `l` keys |
| Crontab.SpanSpacesEnd | src/Crontab.php:45 | a run of `\s` that the next character does not extend is the one the greedy scan finds |
| Crontab.SpanWordEnd | src/Crontab.php:45 | a run of `[a-z0-9_]` that the next character does not extend is the one the greedy scan finds |
| Crontab.ShapeMatches | src/Crontab.php:45 | a line made of spaces, a non-empty word, spaces and `=` is accepted by the greedy scan |
| Crontab.KeptShape | src/Crontab.php:41-47 | a line is kept iff its trim is not empty, it starts with `#suspended: ` or not with `#`, and it does not match `^\s*[a-z0-9_]+\s*=` case-insensitively |
| Crontab.AssignmentMatch | src/Crontab.php:45 | the greedy scan accepts a line iff it matches `^\s*[a-z0-9_]+\s*=`, case-insensitively |
| Crontab.Positions | src/Crontab.php:41-47 | the kept positions are in range, accepted by the filter, and strictly increasing |
| Crontab.PositionsComplete | src/Crontab.php:41-47 | every line the filter accepts has its position among the kept ones |
| Crontab.LoadLines | src/Crontab.php:49-51 | succeeds iff every kept line parses, failing with the error of a kept line otherwise; the `m`-th entry is the parse of the `m`-th kept line under the key `"l"` + its unfiltered position; keys are distinct |
| Crontab.LoadedLines | src/Crontab.php:40-51 | with the real filter and parser, loading fails only with `TooFewFields`, succeeds iff every kept line parses, and gives a valid table without integer keys |
| Crontab.Load | src/Crontab.php:29-52 | a failed listing fails with its error output, or `Execution error` when that is `""` or `"0"`; otherwise the table holds the kept lines of the line-feed split, parsed, in order, keyed by unfiltered position; it loads iff every kept line parses, an error is always `TooFewFields`, and the next integer key is 0 |
| Crontab.Lookup | src/Crontab.php:82-86 | a key is found iff it is present, and what is found is its entry's job |
| Crontab.LookupAt | src/Crontab.php:82-86 | under distinct keys, looking up an entry's key finds that entry |
| Crontab.Get | src/Crontab.php:80-87 | succeeds iff the key is present, returning the job stored under it; fails otherwise with `UndefinedJob` |
| Crontab.GetEntry | src/Crontab.php:80-87 | in a valid table, `get` of every entry's key returns that entry's job |
| Crontab.RenderLinesSpec | src/Crontab.php:112-114 | rendering the jobs fails iff some job has no command, and then with `EmptyCommand`; otherwise line `m` is the line of job `m` |
| Crontab.RenderTable | src/Crontab.php:112-116 | the text exists iff every job has a command, failing with `EmptyCommand` otherwise; it is the canonical lines of the jobs, in table order, joined by line feeds and followed by one; an empty table gives a lone line feed |
| Crontab.Write | src/Crontab.php:108-124 | a job without a command fails with nothing installed; otherwise exactly the rendered text is installed, once, and the write succeeds iff the install does, failing with `CannotSave` |
| Crontab.Persist | src/Crontab.php:70 | the table stays mutated whatever the write does |
| Crontab.Add | src/Crontab.php:67-71 | the table becomes the appended one, and the write is of that table |
| Crontab.AppendValid | src/Crontab.php:69 | the new key is held by no entry; earlier entries are kept in place, with the job last; the table stays valid |
| Crontab.AppendThenGet | src/Crontab.php:69 | after `add`, the new key finds the job and every other key finds what it found before |
| Crontab.Remove | src/Crontab.php:95-103 | an absent key fails with `UndefinedJob`, leaving the table untouched and nothing installed; otherwise the table becomes the one without the key, and the write is of that table |
| Crontab.WithoutAbsent | src/Crontab.php:101 | removing an absent key changes nothing |
| Crontab.WithoutAt | src/Crontab.php:101 | under distinct keys, removal cuts out exactly the entry at the key's position |
| Crontab.DeleteValid | src/Crontab.php:101 | deleting the key at position `m` leaves the other entries in their order and the table valid |
| Crontab.DeleteShift | src/Crontab.php:101 | after deleting the key at position `m`, earlier entries stay in place and later ones move down by one |
| Crontab.DeleteGone | src/Crontab.php:101 | after deleting the key at position `m`, no entry holds that key |
| Crontab.DeleteKeepsKeys | src/Crontab.php:101 | after deleting the key at position `m`, any other key is present iff it was before |
| Crontab.DeleteKeepsJob | src/Crontab.php:80-101 | after deleting the key at position `m`, `get` of another entry's key returns what it returned before |
| Crontab.DeleteThenGet | src/Crontab.php:95-103 | after `remove`, the key is absent and every other key finds what it found before |
| CrontabRoundTrip.SplitTerminated | src/Crontab.php:40 | lines without line feeds, each followed by one, split back into the lines and an empty tail |
| CrontabRoundTrip.PositionsAll | src/Crontab.php:41-47 | when every line is kept, the positions are all of them |
| CrontabRoundTrip.RenderedLines | src/Crontab.php:112-116 | the text written for jobs with commands and no line feeds splits into the jobs' lines and an empty tail |
| CrontabRoundTrip.LoadAllLines | src/Crontab.php:49-51 | kept lines that all parse, followed by a rejected empty tail, load as their jobs under the keys `l0`, `l1`, ... |
| CrontabRoundTrip.LoadKeptLines | src/Crontab.php:40-51 | a listing of kept lines that all parse, then an empty tail, loads as their jobs under `l0`, `l1`, ... |
| CrontabRoundTrip.ReloadLine | src/Crontab.php:41-50 | the line of a reloadable job passes the filter and parses back to the same written fields |
| CrontabRoundTrip.LoadJobLines | src/Crontab.php:40-51 | a listing made of the lines of reloadable jobs, then an empty tail, loads as those jobs in order under `l0`, `l1`, ... |
| CrontabRoundTrip.ReloadTable | src/Crontab.php:40-51 | loading the text written for a table of reloadable jobs gives the jobs back in order, under `l0`, `l1`, ..., with the same written fields |
| CrontabRoundTrip.SplitNewline | src/Crontab.php:40 | a lone line feed splits into two empty lines |
| CrontabRoundTrip.LoadNothing | src/Crontab.php:41-51 | lines the filter rejects all load as no entries |
| CrontabRoundTrip.LoadBlank | src/Crontab.php:40-51 | a listing that splits into two empty lines loads as an empty table |
| CrontabRoundTrip.ReloadEmpty | src/Crontab.php:112-116 | an empty table writes a lone line feed, which loads as an empty table |
| CrontabExamples.BlankDropped | src/Crontab.php:43 | the empty line is dropped |
| CrontabExamples.AssignmentDropped | src/Crontab.php:45 | `FOO=bar` is dropped |
| CrontabExamples.CommentDropped | src/Crontab.php:44 | `#comment` is dropped |
| CrontabExamples.SuspendedKept | src/Crontab.php:42-46 | `#suspended: * * * * * x` is kept |
| CrontabExamples.PositionsSingle | src/Crontab.php:41-47 | when the filter accepts exactly one line, its position is the only one |
| CrontabExamples.SampleVerdicts | src/Crontab.php:41-47 | the filter drops the blank line, `FOO=bar` and `#comment` and keeps `#suspended: * * * * * x` |
| CrontabExamples.SampleFilter | src/Crontab.php:41-47 | of a blank line, `FOO=bar`, `#comment` and `#suspended: * * * * * x`, only the last is kept, at position 3 |
| Wrappers.MapResult | src/Crontab.php:112-114 | the mapped sequence exists iff every element maps, and then holds the images in order; otherwise the error is that of the first element that fails |

## Left out

- Running `crontab -l` and `crontab <file>`, the default binary path,
  `tempnam` and `file_put_contents` (src/Crontab.php:31-38, 110, 116-123)
  are external processes and files. The listing is an input value and the
  install step a callback; a write's file always holds the rendered text.
  `write()` ignores the result of `file_put_contents` (src/Crontab.php:116),
  so in PHP the installer runs even when the file write failed; the model
  has no failing file write.
- `file_exists`, `filemtime` and `filesize` (src/Job.php:138-146) are an
  oracle parameter mapping a path to an optional mtime and size.
- `\DateTime` is an integer timestamp.
- Exception messages (`sprintf`, `get_class`, `gettype`) are not modelled;
  each exception is an error variant. `ListFailed` keeps the process's error
  text, which is what the caller sees.
- Non-string arguments to `fromString` are ruled out by the types.
- `PHP_EOL` is fixed to `"\n"`.
- Concurrent writers and several table instances are not modelled.
- Jobs are values, while PHP jobs are objects shared by reference: `add`
  stores the caller's object and `get`/`all` hand it back
  (src/Crontab.php:57-60, 69, 86). A change a caller makes to a stored job
  after `add` or `get` is therefore not seen by later writes here. For
  example, a job added with an empty command makes every later write fail
  with `EmptyCommand` until it is removed; in PHP, calling `setCommand` on
  that object would make the next write succeed.
- PHP byte strings are `seq<char>`. Every delimiter, `trim` character and
  regex class involved is ASCII, so nothing observable changes.
- The plain getters and setters, and `all()` (src/Crontab.php:57-60), are
  field access and record update.
- PHP array-key coercion is not modelled. A numeric string such as `"5"`
  passed to `get` or `remove` would address the integer key 5; here
  `Named("5")` and `Numbered(5)` are different keys. The keys the table
  hands out never collide this way.
- CrontabRoundTrip.ReloadTable: requires every job's line to hold no line
  feed and to pass the load filter (`Reloads`). This is weaker than
  "what is written is read back". A job whose line is an assignment such as
  `a=b * * * * x`, or whose fields hold line feeds, is written but not read
  back as written.
- JobRoundTrip.RoundTrip: optional fields equal to `"0"` are not written,
  so they read back as `""` (`SameFields` compares with `Shown`). The last
  run time and status come from the files, not from the job.
- JobRoundTrip.ReparseStable: for the same reason, parsing after rendering
  is idempotent only up to `Shown`: a parsed optional field equal to `"0"`
  is dropped by rendering and reads back as `""`.
