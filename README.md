# search_log: a Dafny model

`search_log.rb` is a command-line script that searches a log file for keywords. Each log
line has the form `<timestamp>|<words>`. The script writes every line that falls inside a time
window and contains one of the keywords to a results file. It can also count, per keyword, how
many matching lines fall into each bucket of `delta` seconds, for a histogram.

This project models the script's core:

- `analyse_log` (module `Scanner`): the line-by-line scan. It reads each line's time from the
  text before the first `|`, keeps a line when its time is strictly inside the window and it
  contains a keyword, and writes it in file order.
- keyword lowercasing for `-i` (module `Matcher`): only the keywords are lowercased.
- `get_time_interval` and `adjust_to_noon` (modules `Interval` and `Clock`): the defaults for
  missing bounds, the check of the finish against the first line's time, and the cut back to
  the midnight of the day.
- `prepare_data` (modules `Histogram` and `HistogramLaws`): the per-keyword walk of a
  bucket-end pointer over the matched times, and the nested table of counts.
- `make_filename` (module `Filename`): the name of a results file.

`analyse_log`, `get_time_interval` and `prepare_data` change state step by step.
`analyse_log` and `prepare_data` are methods with loops. `get_time_interval` is a method with
branches. Each is proved against functions that specify it (`Scanner.Echoed`,
`Interval.Snapped`, `Histogram.Build`). The remaining operations are functions, with lemmas
proved about them.

Times are whole seconds since 1970-01-01 00:00:00, with no time zone. Ruby's `Time.parse` is a
parameter, `parse: string -> Option<Time>`, where `None` is the `ArgumentError` it raises. The
log file is a sequence of lines, and the results file is the sequence of lines written to it.

The model follows what the code executes. It differs from the script's names and comments in
these places:

- `-i` lowercases only the keywords (search_log.rb lines 90-92), never the log lines. So with
  `-i`, a line written in capitals is never found by a keyword that contains a letter.
  `Matcher.InsensitiveMissesCapitals` and `Matcher.InsensitiveErrorExample` state this.
- The hash returned by `analyse_log` is always empty. The code that filled it (lines 174-184)
  is commented out. So `prepare_data`, as the script calls it, gives every keyword just `{0 => 0}`.
- `adjust_to_noon` gives midnight (00:00:00), not noon.
- Both bounds of the window are excluded (`timestamp > start` and `timestamp < finish`). With
  the default start, which is the first line's time, and without `-n`, the first line is never
  written (`Interval.DefaultStartSkipsFirstLine`; with `-n`, `Interval.FromNoonKeepsFirstLine`).
- The `-e` help text (line 54) and the comment at line 333 give the last timestamp in the log as
  the default finish. Line 335 uses the fixed time `31.12.3000 23:59:59` instead
  (`Interval.GetTimeInterval`, `Clock.FarFutureIsLastSecondOf3000`).
- A line that starts with `|` has its whole text taken as its timestamp header. Ruby reads
  `line[0..-1]` as the entire line.

Read alongside the model, `tests/test_search.rb` line 31 expects the first key of the
keyword's sub-table from `prepare_data` to be a `Time`. Because the hash from `analyse_log` is
always empty, that key is the Integer `0` (`HistogramLaws.EmptyDataFirstKeyIsZero`), so that
assertion does not hold as written. This comes from reading the code; nothing was executed.

## Model

| member | source | states |
|---|---|---|
| Clock.AdjustToNoon | search_log.rb:363-366 | the result lies on the same calendar day as the input, at second 0 of that day |
| Clock.AdjustToNoonUnique | search_log.rb:363-366 | any time on the input's day at 00:00:00 is exactly AdjustToNoon's result |
| Clock.AdjustToNoonIdempotent | search_log.rb:363-366 | cutting a time back to midnight twice is the same as doing it once |
| Clock.AdjustToNoonNotLater | search_log.rb:363-366 | the result is never later than the input and less than a day earlier: it is midnight, not noon |
| Clock.AdjustToNoonLatestMidnight | search_log.rb:363-366 | every midnight not after the input is at or before the result |
| Clock.AdjustToNoonMonotone | search_log.rb:363-366 | the cut keeps the order of times |
| Clock.AdjustToNoonCivil | search_log.rb:352-354 | on a calendar date and time of day, the result has the same year, month and day and the time 00:00:00 |
| Clock.FromCivilFields | search_log.rb:335 | a time built from a date and a valid time of day gives back that day and that second of the day |
| Clock.FarFutureIsLastSecondOf3000 | search_log.rb:335 | the default finish `31.12.3000 23:59:59` is the last second of day 376564, and one second later is 1 January 3001 |
| LogLine.IndexOf | search_log.rb:151 | `line.index('|')` is None exactly when there is no `|`; otherwise it is the position of the first `|` |
| LogLine.Header | search_log.rb:151 | with no `|` there is no header; a leading `|` gives the whole line; otherwise the header is the text before the first `|` |
| LogLine.Timestamp | search_log.rb:151 | defines a line's time: no `|` gives NoDelimiter, a header that `Time.parse` rejects gives NoTime, otherwise the parsed time; its properties are in LogLine.Header and LogLine.TimestampReadsHeader |
| LogLine.TimestampReadsHeader | search_log.rb:151 | a line `header|rest` with a non-empty, `|`-free header is timed by `Time.parse(header)`, or fails with that header |
| Matcher.Contains | search_log.rb:163 | defines `line.include?(w)`: `w` occurs at some position of the line; used by Matcher.FirstMatch and Scanner.EchoedMembers |
| Matcher.FirstMatch | search_log.rb:161-172 | None exactly when the line contains no keyword; otherwise the first keyword, in list order, that the line contains |
| Matcher.SearchKeywords | search_log.rb:90-92 | without `-i` the keywords are unchanged; with `-i` the list keeps its length, each result equals its own keyword up to case and is already lower case, and no result has an upper-case letter |
| Matcher.Lower | search_log.rb:91 | defines `downcase` character by character on ASCII letters; its properties are in Matcher.LowerSpec, Matcher.LowerIdempotent and Matcher.LowerSlice |
| Matcher.LowerSpec | search_log.rb:91 | `downcase` keeps the length, leaves no upper-case letter, and changes nothing but upper-case letters |
| Matcher.LowerIdempotent | search_log.rb:91 | lowercasing twice is the same as lowercasing once |
| Matcher.InsensitiveSearchUnloweredLine | search_log.rb:90-92 | with `-i` a line matches exactly when it contains some lowercased keyword as the line stands |
| Matcher.InsensitiveMissesCapitals | search_log.rb:90-92 | with `-i`, a line with no lower-case letter matches no keyword that has a letter |
| Matcher.InsensitiveWithinLoweredSearch | search_log.rb:90-92 | each `-i` match is also a match once the line is lowercased too, so `-i` finds no more than a true case-insensitive search |
| Matcher.InsensitiveErrorExample | search_log.rb:90-92 | with `-i` and keyword `ERROR`, `disk error 42` matches and `DISK ERROR 42` does not, although its lowercased text contains `error` |
| Scanner.InWindow | search_log.rb:155 | defines the strict test `start < t < finish`; Scanner.AnalyseLog's loop uses it, and Scanner.EchoedMembers and Scanner.BoundsNeverWritten state it |
| Scanner.Echoes | search_log.rb:151-172 | defines when a line is written: its timestamp reads, lies strictly inside the window, and some keyword occurs in the line; Scanner.EchoedMembers states it |
| Scanner.Echoed | search_log.rb:149-186 | defines the output file: the echoing lines of the log in file order; Scanner.AnalyseLog is proved equal to it, and Scanner.EchoedAppend, Scanner.EchoedCount and Scanner.EchoedMembers state its properties |
| Scanner.AnalyseLog | search_log.rb:139-190 | the returned data hash is empty (`[]`, as prepare_data takes it); if every line has a timestamp, the output is exactly the echoing lines in file order; otherwise the scan stops at the first line without one, with the output so far |
| Scanner.EchoedAppend | search_log.rb:149-186 | scanning two stretches of a log writes the first stretch's lines, then the second's |
| Scanner.EchoedCount | search_log.rb:149-186 | each echoing line is written once for each time it occurs in the log; a line that does not echo is never written |
| Scanner.EchoedMembers | search_log.rb:151-172 | a line is in the output iff it is in the log, has a readable time strictly between start and finish, and contains some keyword |
| Scanner.BoundsNeverWritten | search_log.rb:155 | a line stamped exactly at a bound, or outside the bounds, is never written |
| Histogram.Keys | search_log.rb:213 | `Hash#keys` on a sub-table: one key per entry, in insertion order; HistogramLaws.EmptyDataFirstKeyIsZero states what it gives as the script calls prepare_data |
| Histogram.Lookup | search_log.rb:236 | defines the read `tab[key]` on a `Hash.new(0)`: the stored count, or 0 for a missing key; Histogram.BumpFacts, Histogram.PutFacts and HistogramLaws.BuildCountsTimes state its properties |
| Histogram.Sub | search_log.rb:213 | defines `keyword_freq[word]` on the outer hash, which gives an empty sub-table for a word not yet present; Histogram.CountTimes and Histogram.CountTime use it, and HistogramLaws.BuildUpToOther and HistogramLaws.BuildEntry state what it holds |
| Histogram.Bump | search_log.rb:236 | defines `tab[key] += 1` on a `Hash.new(0)` kept in insertion order; Histogram.BumpFacts states its properties |
| Histogram.BumpFacts | search_log.rb:236 | `tab[key] += 1` adds one under `key` and one to the total, changes no other count, and appends `key` only if it is new |
| Histogram.Put | search_log.rb:221 | defines `tab[key] = v` kept in insertion order; Histogram.PutFacts states its properties |
| Histogram.TimesWith | search_log.rb:219 | defines `data.select{...}.keys`: the times of the data hash, in order, whose keyword list holds the word |
| Histogram.PutFacts | search_log.rb:221 | `tab[key] = v` stores `v` under `key`, changes no other count, and appends `key` only if it is new |
| Histogram.BumpAllFacts | search_log.rb:230-244 | bumping a sequence of ends adds its length to the total, adds under each end as often as that end occurs, and never touches the `0` key |
| Histogram.Advance | search_log.rb:233-243 | the `while !time_in` loop stops with the pointer at or after both the time and its old value, and less than one step past the time if it moved |
| Histogram.PointerAfter | search_log.rb:226-244 | the pointer never drops below `start + delta`, and stays there when `delta <= 0` |
| Histogram.EndsUpTo | search_log.rb:226-244 | the i-th time is counted under the pointer's value after the walk has taken times 0 to i |
| Histogram.Pass | search_log.rb:216-246 | defines one keyword's pass: `[0] = 0` with no times, otherwise one bump per time at the end the walk from `start + delta` gives it; Histogram.CountTimes is proved equal to it and HistogramLaws.RepeatedTable states what it leaves |
| Histogram.Build | search_log.rb:210-248 | defines prepare_data's result: the passes of the keywords in list order; Histogram.PrepareData is proved equal to it, and HistogramLaws.BuildEntry and HistogramLaws.BuildCountsTimes state its properties |
| Histogram.PrepareData | search_log.rb:210-248 | when every walk terminates, the result is Build: one pass per listed keyword, the pointer restarting at `start + delta` for each |
| Histogram.CountTimes | search_log.rb:216-246 | one keyword's pass: `{0 => 0}` when it has no times, otherwise one bump per time, at the end the walk assigns to it |
| Histogram.CountTime | search_log.rb:230-243 | for one time, the pointer ends where Advance says, and only that end's count in the keyword's sub-table goes up by one |
| HistogramLaws.AdvanceOnGrid | search_log.rb:233-243 | a pointer on the grid `base + k * delta` stays on it and does not move down the grid |
| HistogramLaws.PointerOnGrid | search_log.rb:226-244 | after any number of times the pointer is `start + delta + k * delta` for some `k` |
| HistogramLaws.PointerMonotone | search_log.rb:226-244 | within one keyword the pointer never decreases |
| HistogramLaws.BucketEnd | search_log.rb:226-244 | each time is counted under `start + k * delta` for some `k >= 1`, and the time is not after that end |
| HistogramLaws.EndsNonDecreasing | search_log.rb:226-244 | later times are never counted under earlier ends |
| HistogramLaws.SortedPointerTight | search_log.rb:230-244 | on sorted times the pointer either has not moved or lies less than one step past the latest time |
| HistogramLaws.SmallestBucketEnd | search_log.rb:230-244 | with sorted times and `delta > 0`, each time goes to the smallest grid end not before it |
| HistogramLaws.UnsortedLandsLate | search_log.rb:230-244 | out of order the walk does not reset: with ends from 10 in steps of 10, the time 5 after the time 25 goes to 30 |
| HistogramLaws.WalkDiverges | search_log.rb:233-243 | with `delta <= 0` no grid point ever reaches a time after the start pointer |
| HistogramLaws.NonTerminationWitness | search_log.rb:233-243 | outside the termination precondition, some time is beyond every grid point, so the loop never ends |
| HistogramLaws.BumpAgain | search_log.rb:230-244 | one more pass over the same ends moves each count from `m` to `m + 1` times the ends' multiplicity |
| HistogramLaws.RepeatedTable | search_log.rb:216-246 | after `m >= 1` passes a sub-table is `{0 => 0}` with no times, otherwise the ends counted `m` times each, with no `0` key |
| HistogramLaws.BuildUpToKeys | search_log.rb:216 | after the first `n` keywords, the table has exactly those keywords as keys |
| HistogramLaws.ListedIsMultiplicity | search_log.rb:216 | counting a keyword along the list gives its multiplicity in the list |
| HistogramLaws.BuildUpToSame | search_log.rb:216-246 | the pass of a repeated keyword adds one more pass over its times |
| HistogramLaws.BuildUpToOther | search_log.rb:216-246 | the pass of one keyword leaves every other keyword's sub-table alone |
| HistogramLaws.BuildUpToEntry | search_log.rb:216-246 | after the first `n` keywords, each sub-table holds one pass per listing of its keyword |
| HistogramLaws.BuildEntry | search_log.rb:210-248 | a word has a sub-table iff it is a keyword; the sub-table is `{0 => 0}` with no times, else its bucket ends counted once per listing |
| HistogramLaws.BuildCountsTimes | search_log.rb:210-248 | for a keyword listed once with matches, the counts add up to its number of times, and each end counts the times assigned to it |
| HistogramLaws.EmptyDataGivesZeroTables | search_log.rb:219-222 | the always-empty hash `[]` that Scanner.AnalyseLog returns gives every keyword exactly `{0 => 0}`, whatever `delta` is |
| HistogramLaws.EmptyDataFirstKeyIsZero | tests/test_search.rb:31 | with the always-empty hash, the first key of a keyword's sub-table is the Integer `0` with count `0`, not a `Time` |
| HistogramLaws.FiveMinuteBuckets | search_log.rb:210-248 | 10:02, 10:04 and 10:12 from 10:00 in 300-second buckets give `{10:05 => 2, 10:15 => 1}` and no entry for 10:10 |
| Interval.GetTimeInterval | search_log.rb:321-347 | an empty log, or a first line without a timestamp, fails; otherwise it fails iff a finish before the first line's time is given; on success the bounds are start-or-first and finish-or-3000, cut to midnight with `-n` |
| Interval.SnappedIsAdjusted | search_log.rb:342-345 | each returned bound is the chosen time, or with `-n` adjust_to_noon of it, and never later than the chosen time |
| Interval.DefaultStartSkipsFirstLine | search_log.rb:329-331 | with the default start, the first log line is never written, because the window excludes its start |
| Interval.FromNoonKeepsFirstLine | search_log.rb:342-344 | with `-n` the default start moves back to midnight, so a first line after midnight that has a keyword and comes before the finish is written |
| Interval.EmptyWindowWritesNothing | search_log.rb:155 | a window with no whole second strictly between start and finish writes nothing |
| Filename.DirName | search_log.rb:387 | defines `File.dirname`: the text before the last `/`, `.` without one, `/` when it is the first character; Filename.DirThenBase and Filename.DirAndBaseOfJoined state its properties |
| Filename.ExtName | search_log.rb:387 | defines `File.extname` as the extension of the base name; Filename.ExtNameShape and Filename.PathParts state its properties |
| Filename.Chomp | search_log.rb:387 | defines `s.chomp(suffix)` for a non-empty suffix: `s` without `suffix` at its end, else `s`; Filename.StemThenExt states what it gives for the extension |
| Filename.Stem | search_log.rb:387 | defines `File.basename(filename).chomp(File.extname(filename))`; Filename.StemThenExt, Filename.StemHasNoSlash and Filename.PathParts state its properties |
| Filename.Join | search_log.rb:386 | defines `keywords.join("_")`; Filename.SplitJoin and Filename.JoinKeepsOut state its properties |
| Filename.MakeFilename | search_log.rb:385-389 | defines make_filename as dirname, `/results/`, stem, `_`, description, `_`, joined keywords, `.txt`; Filename.MakeFilenameLayout and Filename.MakeFilenameOf state its properties |
| Filename.LastIndexOf | search_log.rb:387 | the position of the last `/` (or `.`), or None exactly when there is none |
| Filename.BaseName | search_log.rb:387 | `File.basename` holds no `/` |
| Filename.ExtNameShape | search_log.rb:387 | `File.extname` is empty, or a `.` plus at least one non-`.` character that ends the base name and is shorter than it |
| Filename.DotExtShape | search_log.rb:387 | the extension of a base name is empty, or a `.` plus at least one non-`.` character at the end of the name |
| Filename.StemThenExt | search_log.rb:387 | `basename.chomp(extname)` followed by the extension gives back the base name |
| Filename.StemHasNoSlash | search_log.rb:387 | the stem holds no `/` |
| Filename.DirThenBase | search_log.rb:387 | a path with a `/` past its first character is its dirname, `/`, and its basename |
| Filename.DirAndBaseOfJoined | search_log.rb:387 | `dir/name` with no `/` in `name` has dirname `dir` and basename `name` |
| Filename.PathParts | search_log.rb:387 | `dir/stem.ext` has dirname `dir`, extname `.ext` and stem `stem` |
| Filename.JoinKeepsOut | search_log.rb:386 | joining parts without a character, using a separator without it, gives a string without it |
| Filename.SplitJoin | search_log.rb:386 | keywords without `_`, joined with `_`, are cut back into the same keywords, so the join loses nothing |
| Filename.MakeFilenameLayout | search_log.rb:385-389 | the results file lies in `<dirname>/results`, and its name is `<stem>_<description>_<keywords joined by _>.txt` |
| Filename.MakeFilenameOf | search_log.rb:373-375 | for a log `dir/stem.ext`, the result is `dir/results/stem_<description>_<keywords joined by _>.txt`; the source's example is `dir = logs`, `stem = test_log`, `ext = txt` |
| Filename.ExampleKeywordsJoined | search_log.rb:373-375 | the example's keywords `ERROR`, `THIS` join to `ERROR_THIS`, and that splits back into them |

## Left out

- `parse_options` (lines 19-120): command-line parsing is not modelled. It has a typo at line
  96, which tests `options[:oufile]` where `:output_file` was meant. So `-o` is always
  overridden by `make_filename(file, "only", keywords)`. The model's scan takes its output as a
  sequence of written lines, so the output file's name plays no part in it.
- `Time.parse`, `Date._parse` and `Time.mktime`: parameters, not modelled. Time zones and
  daylight-saving time are not modelled; a time is a count of seconds.
- `plot_graph`, `write_data`, `file_exists?` and the main block (lines 405-446): Gnuplot
  output, file I/O and the process's exit are not modelled. `create_log.rb` and the test
  scripts are not part of this model.
- File I/O in `analyse_log` and `get_time_interval`: the log is a sequence of lines. Ruby keeps
  each line's trailing newline; the lines here have none. On a line with a `|` past its first
  character the newline only lengthens the text after `|`. On a line that starts with `|` the
  header is the whole line, so in Ruby the newline is part of the text given to `Time.parse`.
  The output file is the sequence of lines written.
- Scanner.AnalyseLog: an exception raised by a line without a timestamp is modelled as a
  `ScanFailure` result, together with the lines written before it. The process ending is not
  modelled.
- Interval.GetTimeInterval: `abort` is modelled as a `Failure` result; `Time.parse`'s exception
  for the first line is a `FirstLine` failure.
- Matcher.Lower: `String#downcase` is modelled for ASCII letters only, with no Unicode case
  mapping.
- Histogram.PrepareData: it requires that every keyword's walk terminates (`delta > 0`, or no
  matched time after `start + delta`). Outside that condition the Ruby loop never returns, which
  HistogramLaws.NonTerminationWitness states. The data hash is a sequence of entries in insertion
  order, and each sub-table is a sequence of (key, count) pairs in insertion order. A keyword
  listed twice gets a second pass that adds the same counts again, as in the source.
- Histogram.CountTimes and Histogram.CountTime: the body of the keyword loop and the
  `while !time_in` loop are separate methods. This does not change behaviour.
- Histogram.PrepareData, Histogram.CountTimes and Histogram.CountTime: the nested hash is a
  `map` value that each update replaces, not an object updated in place. Aliasing of the hash
  is not modelled. The outer hash is a `map`, so the order in which keywords first
  appear in it is not kept; that order is visible only through `write_data`, which is not
  modelled.
- Filename.DirName, Filename.BaseName and Filename.ExtName: modelled on the last `/` and the
  last `.`. Ruby's handling of trailing and repeated slashes, of the empty path and of `~` is
  not modelled. A name that ends in `.` has no extension, as in Ruby before 2.7.
- Filename.Chomp: `chomp("")` strips a trailing newline in Ruby; `chomp` with an empty suffix
  returns its argument unchanged here. An extension is never a newline, so only a base name
  ending in a newline would be affected.
- The literal example of lines 373-375 is stated via Filename.MakeFilenameOf (its general
  form, of which the example is the instance `logs`, `test_log`, `txt`) and
  Filename.ExampleKeywordsJoined, not as one equation between string literals.
