# RustFileManager core, modelled in Dafny

`file_manager_cli` is a command-line file manager. Most of it passes calls straight to
`std::fs`, `walkdir`, `glob`, `chrono` and `clap`. This project models the parts that have
logic of their own:

- **The interactive mode** (`interactive_mode`). Each line read from standard input is
  trimmed. The exact text `exit` leaves the loop. Otherwise the line is split on
  whitespace and the first token picks one of ten commands. The command runs when its
  arguments are present, and prints its usage line when they are not. Any other first
  token prints `Unknown command: <token>`. A line with no token at all (a blank line, or
  the empty buffer `read_line` leaves at the end of the input) panics on `parts[0]`.
  - `Text` models `str::trim` and `str::split_whitespace` over the Unicode White_Space
    characters.
  - `Interactive.Decode` maps a line to a `Decision`: `Exit | Run(cmd, args) |
    Usage(cmd) | Unknown(token) | Panic`.
  - `Interactive.Session` is the read loop. It is a `while` loop over a sequence of
    input lines.
- **The bucket keys** of the two organize commands.
  - By type, the key is the file's extension, following `Path::extension` (`Paths`).
    Names are platform strings, so a non-UTF-8 extension is possible, and only then is
    the key `unknown`. A file without an extension gets the empty key, because of
    `unwrap_or_default`. Such a file goes directly into the root directory. An
    extensionless file already at the root is renamed onto itself.
  - By date, the key is the UTC date `%Y-%m-%d` of the modification time.
    - `Calendar` holds the proleptic Gregorian day count and its inverse.
    - `Decimal` holds the numerals chrono prints.
    - The key fails for a time before the epoch (`duration_since(..).unwrap()`) and for
      a date beyond chrono's last year (`from_timestamp_opt(..).unwrap()`).
- **The organize engines** (`organize_by_type`, `organize_by_date`).
  - They run against an abstract file system: a map from the path of each regular file
    to its contents, and a set of directory paths (`Fs`, and the class
    `Disk.FileSystem`, which updates that state in place).
  - Each regular file is moved into `root/<key>` under its own name. The bucket is
    created first when it does not exist.
  - The first failing `create_dir_all`, `rename` or date key panics and ends the run.
    The moves made before it stay.
  - `Organize.Run` is the specification of a whole run. `Organize.OrganizeByType` and
    `Organize.OrganizeByDate` are the loops, each proved to leave the disk and the call
    log that `Run` describes.
- **The statistics fold** (`file_stats`). It counts the regular files and adds up their
  lengths. An unreadable one panics on its `expect`.

## Model

| member | source | states |
|---|---|---|
| Text.TrimStart | file_manager_cli/src/main.rs:235 | the leading whitespace is removed: what is cut off is all whitespace, and what is left is a suffix that does not start with whitespace |
| Text.TrimEnd | file_manager_cli/src/main.rs:235 | the trailing whitespace is removed: what is cut off is all whitespace, and what is left is a prefix that does not end with whitespace |
| Text.Trim | file_manager_cli/src/main.rs:235 | the trimmed line is no longer than the line, has no whitespace at either end, and a line without whitespace at its ends is left unchanged |
| Text.TrimCutsWhitespace | file_manager_cli/src/main.rs:235 | trimming only removes whitespace: the trimmed line is a slice of the line with nothing but whitespace before and after it |
| Text.TrimAround | file_manager_cli/src/main.rs:235 | text with no whitespace at its ends, surrounded by whitespace, trims to exactly that text |
| Text.TrimEmpty | file_manager_cli/src/main.rs:235 | a line trims to nothing exactly when it is all whitespace |
| Text.TakeWord | file_manager_cli/src/main.rs:240 | a token is the longest whitespace-free prefix of what is left of the line |
| Text.Words | file_manager_cli/src/main.rs:240 | the tokens of a line are non-empty and hold no whitespace |
| Text.WordsEmpty | file_manager_cli/src/main.rs:240 | a line has no tokens exactly when it is all whitespace |
| Text.Interleave | file_manager_cli/src/main.rs:240 | no contract of its own: a line built from words and whitespace separators; specified by `Text.WordsOfInterleave` and `Text.SeparatorsOf` |
| Text.WordsOfInterleave | file_manager_cli/src/main.rs:240 | splitting words interleaved with whitespace separators (any whitespace, non-empty between two words) gives exactly those words back (round trip) |
| Text.SeparatorsOf | file_manager_cli/src/main.rs:240 | every line is its own tokens interleaved with whitespace separators, so the tokens are exactly the whitespace-separated pieces of the line |
| Text.WordsOfTrim | file_manager_cli/src/main.rs:235-240 | trimming a line first does not change its tokens |
| Interactive.Lookup | file_manager_cli/src/main.rs:241-311 | the command found has the token as its keyword; when none is found, no command in the table has that keyword |
| Interactive.CommandNamed | file_manager_cli/src/main.rs:241-311 | a first token selects a command exactly when it is that command's keyword |
| Interactive.CommandsComplete | file_manager_cli/src/main.rs:241-311 | every command appears in the dispatch table |
| Interactive.KeywordSelects | file_manager_cli/src/main.rs:241-311 | each of the ten keywords selects its own command |
| Interactive.Dispatch | file_manager_cli/src/main.rs:240-312 | no contract of its own: the `match parts.get(0)` dispatch; specified by `Interactive.DispatchCases`, `Interactive.ArityDecides` and `Interactive.ExtraTokensIgnored` |
| Interactive.DispatchCases | file_manager_cli/src/main.rs:240-312 | no tokens means a panic; an unrecognised first token is reported back as it is; a recognised command runs with exactly the next one or two tokens when they are there, and prints its usage when they are not; dispatch never exits |
| Interactive.ExitWordIsExit | file_manager_cli/src/main.rs:236 | the character-by-character test accepts exactly the text `exit` |
| Interactive.Decode | file_manager_cli/src/main.rs:235-312 | no contract of its own: trim, then decode; specified by `Interactive.DecodeExit`, `Interactive.DecodePanic` and `Interactive.DecodeWords` |
| Interactive.DecodeTrimmed | file_manager_cli/src/main.rs:236-312 | no contract of its own: the `exit` test, then the dispatch on the tokens; specified by `Interactive.DecodeWords` |
| Interactive.DecodeExit | file_manager_cli/src/main.rs:235-238 | a line leaves the loop exactly when its trimmed text is `exit` |
| Interactive.DecodePanic | file_manager_cli/src/main.rs:235-312 | a line panics on `parts[0]` exactly when it is all whitespace |
| Interactive.DecodeBlank | file_manager_cli/src/main.rs:233-312 | the empty buffer left at the end of the input panics |
| Interactive.ExitIsWord | file_manager_cli/src/main.rs:236 | `exit` is a single token |
| Interactive.DecodeExitWord | file_manager_cli/src/main.rs:235-238 | the word `exit` with any whitespace around it leaves the loop |
| Interactive.DecodeWords | file_manager_cli/src/main.rs:235-241 | a line of words separated by any whitespace exits when it is the single word `exit`, and is otherwise dispatched on exactly those words; with `Text.SeparatorsOf` this covers every line |
| Interactive.ExtraTokensIgnored | file_manager_cli/src/main.rs:241-311 | tokens beyond the command's arity do not change what runs |
| Interactive.ArityDecides | file_manager_cli/src/main.rs:241-311 | a keyword followed by at least its arity's worth of tokens runs with the first of them; with fewer it prints the usage |
| Interactive.RenameWithOneArgument | file_manager_cli/src/main.rs:256-262 | `rename` with a single argument prints the usage line |
| Interactive.KeywordIsNotExit | file_manager_cli/src/main.rs:236-311 | no command is named `exit` |
| Interactive.ExitWithMoreWords | file_manager_cli/src/main.rs:235-312 | `exit` followed by more words, whatever the whitespace, does not exit; `exit` is reported as an unknown command |
| Interactive.DecisionsIndex | file_manager_cli/src/main.rs:228-312 | the decision at each position is that of the line at that position |
| Interactive.Session | file_manager_cli/src/main.rs:228-314 | the loop dispatches the decisions of the lines before its end, in order, each of which continues the loop; it ends at an `exit` line or at a line (or the end of the input) that panics |
| Interactive.StopsNoLaterThan | file_manager_cli/src/main.rs:228-238 | the loop never reads past an `exit` line |
| Interactive.StopsNoEarlierThan | file_manager_cli/src/main.rs:228-312 | the loop never stops at a line that lets it go on |
| Interactive.ExitStopsSession | file_manager_cli/src/main.rs:228-238 | the loop's outcome is fixed by its input: when every line before the first `exit` goes on, the loop exits at that line having dispatched exactly the decisions of the lines before it |
| Paths.Chars | file_manager_cli/src/main.rs:162 | text becomes a platform string of the same length, character for character |
| Paths.ToStr | file_manager_cli/src/main.rs:162 | `to_str` succeeds exactly when every unit is a character, and then gives back the same text |
| Paths.ToStrChars | file_manager_cli/src/main.rs:162 | text survives the trip into a platform string and back |
| Paths.CharsInjective | file_manager_cli/src/main.rs:162-163 | different texts give different path components |
| Paths.FileName | file_manager_cli/src/main.rs:167 | `file_name` exists exactly for a non-empty path, and is its last component |
| Paths.LastDot | file_manager_cli/src/main.rs:162 | finds the last `.` of a name, or reports that it has none |
| Paths.Extension | file_manager_cli/src/main.rs:162 | no contract of its own: `Path::extension`; specified by `Paths.ExtensionCases` and `Paths.ExtensionOfStemDot` |
| Paths.ExtensionCases | file_manager_cli/src/main.rs:162 | there is no extension exactly for `..` and for names without a `.` after the first position; otherwise the extension is the dot-free tail after a `.` that has something in front of it |
| Paths.ExtensionOfStemDot | file_manager_cli/src/main.rs:162 | a non-empty stem, a `.` and a dot-free tail has that tail as its extension, even an empty one |
| BucketKeys.TypeKey | file_manager_cli/src/main.rs:162 | no contract of its own: the by-type key; specified by `BucketKeys.TypeKeyCases`, `BucketKeys.TypeKeyOfText` and `BucketKeys.TypeKeyWithoutDot` |
| BucketKeys.TypeKeyCases | file_manager_cli/src/main.rs:162 | the by-type key is empty without an extension, the extension's text when it is valid UTF-8, and `unknown` only when it is not |
| BucketKeys.TypeKeyOfText | file_manager_cli/src/main.rs:162 | a file with a textual extension goes under exactly that extension |
| BucketKeys.TypeKeyWithoutDot | file_manager_cli/src/main.rs:162 | a name with no `.` after its first character gets the empty key |
| Decimal.Numeral | file_manager_cli/src/main.rs:183 | a number prints as a non-empty string of digits with no leading zero |
| Decimal.Padded | file_manager_cli/src/main.rs:183 | a padded field has exactly its width, all digits |
| Decimal.NumeralValue | file_manager_cli/src/main.rs:183 | a numeral reads back as the number it was printed from |
| Decimal.PaddedValue | file_manager_cli/src/main.rs:183 | a padded field of a number that fits its width reads back as that number |
| Calendar.BeforeMonthStep | file_manager_cli/src/main.rs:181 | each month starts where the one before it ends |
| Calendar.MonthsFillYear | file_manager_cli/src/main.rs:181 | the twelve months fill the year, with 366 days in a leap year |
| Calendar.MonthWalk | file_manager_cli/src/main.rs:181 | a day offset within the year falls on a valid day of a month from the starting month on |
| Calendar.YearWalk | file_manager_cli/src/main.rs:181 | a day count from the first of January falls on a valid date no earlier than that year |
| Calendar.CivilFromDays | file_manager_cli/src/main.rs:181 | every day count since 1970-01-01 falls on a valid date |
| Calendar.DaysFromCivil | file_manager_cli/src/main.rs:181 | no contract of its own: the number of days from 1970-01-01 to a date; specified by `Calendar.DaysOfCivil`, `Calendar.CivilOfDays` and `Calendar.CivilInjective` |
| Calendar.DaysOfCivil | file_manager_cli/src/main.rs:181 | counting the days back from the date of a day count gives that count |
| Calendar.CivilOfDays | file_manager_cli/src/main.rs:181 | the date of a valid date's day count is that date |
| Calendar.CivilInjective | file_manager_cli/src/main.rs:181 | two day counts fall on the same date exactly when they are equal |
| Calendar.YearsSpanSplit | file_manager_cli/src/main.rs:181 | the days of consecutive runs of years add up |
| Calendar.YearBound | file_manager_cli/src/main.rs:181 | a day count falls before a year exactly when it is smaller than the days from 1970 to that year |
| BucketKeys.YearText | file_manager_cli/src/main.rs:183 | no contract of its own: chrono's `%Y`; specified by `BucketKeys.ParseYearText` |
| BucketKeys.DateText | file_manager_cli/src/main.rs:183 | no contract of its own: `%Y-%m-%d`; specified by `BucketKeys.ParseDateText` and `BucketKeys.DateTextInjective` |
| BucketKeys.DateKey | file_manager_cli/src/main.rs:180-183 | no contract of its own: the by-date key or why it fails; specified by `BucketKeys.DateKeyNamesDay`, `BucketKeys.SameKeyIffSameDay`, `BucketKeys.DateKeyRange`, `BucketKeys.DateKeyNotEmpty` and `BucketKeys.DateKeyShape` |
| BucketKeys.ParseYearText | file_manager_cli/src/main.rs:183 | a `%Y` year reads back as the year it was printed from, padded or signed |
| BucketKeys.ParseDateText | file_manager_cli/src/main.rs:183 | a `%Y-%m-%d` text reads back as the date it was printed from |
| BucketKeys.DateTextInjective | file_manager_cli/src/main.rs:183 | two valid dates print the same exactly when they are equal |
| BucketKeys.DateKeyNamesDay | file_manager_cli/src/main.rs:180-183 | a date key names the UTC day of the time: read back, it is the date `secs / 86400` days after 1970-01-01 |
| BucketKeys.SameKeyIffSameDay | file_manager_cli/src/main.rs:180-183 | two times get the same date key exactly when they fall on the same UTC day |
| BucketKeys.DateKeyRange | file_manager_cli/src/main.rs:180-182 | a key exists exactly for times from the epoch to the end of chrono's last year; exactly the times before the epoch fail at `duration_since` |
| BucketKeys.DateKeyNotEmpty | file_manager_cli/src/main.rs:183 | a date key is never the empty text |
| BucketKeys.DateKeyShape | file_manager_cli/src/main.rs:183 | up to the year 9999 a date key is `YYYY-MM-DD`: ten characters, digits around two dashes |
| Fs.CreateDirAll | file_manager_cli/src/main.rs:165 | no contract of its own: `fs::create_dir_all`; specified by `Fs.CreateDirAllEffect`, `Fs.CreateDirAllWellFormed` and `Fs.CreateDirAllExisting` |
| Fs.Rename | file_manager_cli/src/main.rs:168 | no contract of its own: `fs::rename`; specified by `Fs.RenameEffect`, `Fs.RenameWellFormed` and `Fs.RenameKeepsCount` |
| Fs.CreateDirAllEffect | file_manager_cli/src/main.rs:165 | `create_dir_all` touches no file, removes no directory, adds only the path and directories above it, and on success the path is a directory |
| Fs.CreateDirAllWellFormed | file_manager_cli/src/main.rs:165 | `create_dir_all` keeps the file system well formed, whether it fails or not |
| Fs.CreateDirAllExisting | file_manager_cli/src/main.rs:164-166 | creating a directory that exists succeeds and changes nothing |
| Fs.RenameEffect | file_manager_cli/src/main.rs:168 | a successful rename puts the source's contents at the destination, leaves nothing at the source and changes no other path; a failed one changes nothing; no rename changes the directories |
| Fs.RenameWellFormed | file_manager_cli/src/main.rs:168 | a rename keeps the file system well formed |
| Fs.RenameKeepsCount | file_manager_cli/src/main.rs:168 | where a rename may not replace a file, it keeps the number of files |
| Disk.FileSystem.constructor | file_manager_cli/src/main.rs:159-160 | the disk object starts as the given well-formed state on the given platform |
| Disk.FileSystem.CreateDirAll | file_manager_cli/src/main.rs:165 | the in-place `create_dir_all` leaves the state and returns the error that `Fs.CreateDirAll` gives, and keeps the disk well formed |
| Disk.FileSystem.Rename | file_manager_cli/src/main.rs:168 | the in-place `rename` leaves the state and returns the error that `Fs.Rename` gives, and keeps the disk well formed |
| Organize.PlanFor | file_manager_cli/src/main.rs:161-183 | only regular files are filed; by date, a file whose metadata or time cannot be read is passed over; by type the key is the file name's type key, by date the time's date key; a file fails before the disk is touched exactly when, by date, its time has no date key, and then with that key's error |
| Organize.Bucket | file_manager_cli/src/main.rs:163 | no contract of its own: `dir.join(key)`; specified through `Organize.MoveIntoCalls` and `Organize.StepMovesFile` |
| Organize.BucketExists | file_manager_cli/src/main.rs:164 | no contract of its own: `type_dir.exists()`; specified through `Organize.MoveIntoCalls` and `Organize.StepMovesFile` |
| Organize.MakeBucket | file_manager_cli/src/main.rs:164-166 | no contract of its own: create the bucket when it does not exist; specified by `Organize.MakeBucketEffect` |
| Organize.MoveInto | file_manager_cli/src/main.rs:163-168 | no contract of its own: filing one file; specified by `Organize.MoveIntoRename`, `Organize.MoveIntoCalls`, `Organize.MoveIntoMoves` and `Organize.MoveIntoPreserves` |
| Organize.Step | file_manager_cli/src/main.rs:160-168 | no contract of its own: one pass of the loop body; specified by `Organize.StepMovesFile`, `Organize.StepPreserves`, `Organize.AbortedStepKeepsFiles` and `Organize.PassedEntriesUntouched` |
| Organize.Run | file_manager_cli/src/main.rs:160-170 | no contract of its own: the whole loop; specified by `Organize.RunAppend`, `Organize.AbortKeepsEarlierMoves` and `Organize.RunPreserves` |
| Organize.FileInto | file_manager_cli/src/main.rs:163-168 | the loop body leaves the disk and returns the calls and outcome that `MoveInto` describes, and keeps the disk well formed |
| Organize.OrganizeByType | file_manager_cli/src/main.rs:158-171 | the by-type loop leaves the disk, the calls made and the abort that `Run` describes for the entries |
| Organize.OrganizeByDate | file_manager_cli/src/main.rs:174-193 | the by-date loop leaves the disk, the calls made and the abort that `Run` describes for the entries |
| Organize.RunAppend | file_manager_cli/src/main.rs:160-170 | running two stretches of entries one after the other is running them together |
| Organize.AbortKeepsEarlierMoves | file_manager_cli/src/main.rs:165-188 | an aborted run stops at one entry: every entry before it went through, its own step failed, the calls are the earlier entries' plus that step's, and the files are exactly as the earlier entries left them |
| Organize.AbortedStepKeepsFiles | file_manager_cli/src/main.rs:165-168 | a step that panics leaves every file as it found it |
| Organize.StepPreserves | file_manager_cli/src/main.rs:160-169 | one entry's step keeps the disk well formed and removes no directory; where a rename may not replace a file it keeps the number of files |
| Organize.RunPreserves | file_manager_cli/src/main.rs:160-170 | a whole run, aborted or not, keeps the disk well formed and removes no directory; where a rename may not replace a file, no file is lost |
| Organize.MakeBucketEffect | file_manager_cli/src/main.rs:164-166 | making the bucket touches no file, removes no directory and keeps the disk well formed; when it succeeds the bucket exists, as a directory or as a file that already had its name |
| Organize.MoveIntoRename | file_manager_cli/src/main.rs:167-168 | once the bucket is there, filing a file is the rename into the bucket under its own name, and fails exactly when that rename does |
| Organize.MoveIntoPreserves | file_manager_cli/src/main.rs:163-168 | filing a file keeps the disk well formed, removes no directory and, where a rename may not replace a file, keeps the number of files |
| Organize.StepMovesFile | file_manager_cli/src/main.rs:161-188 | the bucket is created only when it does not exist, and only before the move; the one rename is to the bucket under the file's own name; on success the contents are at the destination and no longer at the source |
| Organize.MoveIntoCalls | file_manager_cli/src/main.rs:163-168 | filing makes one or two calls: a `create_dir_all` of the bucket first exactly when the bucket is missing, and the rename last |
| Organize.MoveIntoMoves | file_manager_cli/src/main.rs:167-168 | when filing succeeds, the file's contents are at the destination and no longer at the source |
| Organize.RenameMoves | file_manager_cli/src/main.rs:168 | a successful rename had a source file and puts its contents at the destination |
| Organize.ExtensionlessAtRootStays | file_manager_cli/src/main.rs:162-168 | by type, an extensionless file directly under the root is renamed onto itself, and the disk stays as it was |
| Organize.PassedEntriesUntouched | file_manager_cli/src/main.rs:161-179 | directories, links and (by date) files whose time cannot be read make no call and change nothing |
| Organize.SameDaySameBucket | file_manager_cli/src/main.rs:180-183 | by date, two files go to the same bucket exactly when their modification times share a UTC day |
| Stats.FileCount | file_manager_cli/src/main.rs:210-214 | no contract of its own: the count of regular files; specified by `Stats.StatsAppend`, `Stats.OnlyRegularFilesCount` and `Stats.NoFilesNoTotals` |
| Stats.TotalSize | file_manager_cli/src/main.rs:210-214 | no contract of its own: the sum of the regular files' lengths; specified by `Stats.StatsAppend`, `Stats.OnlyRegularFilesCount` and `Stats.NoFilesNoTotals` |
| Stats.RegularFiles | file_manager_cli/src/main.rs:211 | the regular files among the entries: each entry occurs among them as often as among the entries when it is a regular file, and not at all otherwise |
| Stats.FileStats | file_manager_cli/src/main.rs:206-220 | the fold panics exactly when some regular file's metadata cannot be read, at the first such file; otherwise it gives the number of regular files and the sum of their lengths |
| Stats.StatsAppend | file_manager_cli/src/main.rs:210-216 | the count and the total over two stretches of entries add up |
| Stats.OnlyRegularFilesCount | file_manager_cli/src/main.rs:210-216 | the count is the number of regular files, and the total is the same over the regular files alone: directories and links add nothing |
| Stats.NoFilesNoTotals | file_manager_cli/src/main.rs:207-219 | with no regular file among the entries, both figures are zero |

## Left out

- The `clap` argument parsing and the one-shot dispatch in `main` (main.rs:10-105) are
  library argument handling and are not part of this model. There, every flag given runs
  independently, in source order, and `--interactive` takes over from all of them.
- The one-call wrappers `list_files`, `delete_file`, `rename_file`, `move_file`,
  `copy_file` and `create_directory` are each a single library call plus a message, so
  there is nothing of their own to state.
  - `Interactive.Session` records which command would run with which arguments, but not
    what the command then does.
  - A panic inside a dispatched command is not modelled.
- `find_files`: its pattern matching is done entirely by the `glob` crate, which is not
  part of this model.
- The `WalkDir` traversal is taken as a given, finite snapshot of entries. Its visit order
  is not modelled, and neither is whether it later visits the bucket directories created
  during the run.
  - `Organize.Run` and `Stats.FileStats` work on whatever sequence of entries they are
    given.
  - Entries the traversal drops (`filter_map(|e| e.ok())`) are not in that sequence.
- The real `std::fs` calls are abstract transitions of a map of files and a set of
  directories.
  - The platform decides two things, and both are parameters: the directories the
    process may not change (`Platform.denied`), and whether `rename` replaces an existing
    file (`Platform.replaceExisting`).
  - The order in which a real system reports simultaneous errors may differ from the
    order in `Fs.Rename` and `Fs.CreateDirAll`.
  - Symbolic links in the tree are not modelled: `exists` and `rename` see only regular files and directories.
  - Paths are taken as normalised, with no `.` or `..` components.
  - File contents are one opaque value per file.
- The internals of `chrono` are not modelled, only the documented UTC meaning of
  `from_timestamp_opt` and `%Y-%m-%d`. The last representable year, `BucketKeys.MaxYear`
  (262142), depends on the chrono version.
  - The modification time is modelled as whole seconds since the epoch, which
    `as_secs() as i64` gives exactly for times after the epoch.
  - A time before the epoch fails at `duration_since` whatever its value.
- Standard input and output are not modelled: the prompt, flushing, all printed text
  beyond the decision itself, and an error from `read_line`. The input is a sequence of
  lines, and the end of the input reads as an empty line.
- Stats.FileStats: does not model the overflow of the count (an `i32`) or of the total (a
  `u64`), because counts and sizes are unbounded here; a real run with more than 2^31 - 1
  files would overflow instead.
- Paths.OsUnit: a name is held in decoded form. Every valid UTF-8 sequence in it is its character, and a raw unit is a byte of 0x80 or more. So two byte strings that decode alike are the same name.
- Floating point, concurrency and the timing of the calls are not part of this model.
