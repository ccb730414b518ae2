# MtrReporting converter, modelled in Dafny

This project models the conversion engine of the MtrReporting converter (`Converter.cs`).
The engine rewrites delimited MTR traceroute reports one line at a time:

- a line whose first comma-separated field starts with `Mtr_Version` (any case) is a header;
- a header is written at most once per destination, guarded by a "header written" flag that
  single-file mode carries from one source file to the next;
- field 1 of a data row goes from Unix-epoch seconds to `yyyy-MM-dd HH:mm:ss` UTC;
- field 6 (the loss percentage) is optionally re-rendered in the current culture, and rows
  with zero loss are optionally dropped;
- the fields are re-joined with the configured separator and appended to the destination.

The destination is either one merged file or a mirror of the source tree. It is opened for
truncation or for appending according to a single overwrite-once flag of the converter.

Layout, leaf first:

- `wrappers.dfy` (`Wrappers`): `Option` and `Result`.
- `text.dfy` (`Text`): `string.Split`, `string.Join`, case-insensitive `StartsWith`.
- `integers.dfy` (`Integers`): `int.TryParse` under the invariant culture.
- `calendar.dfy` (`Calendar`): the proleptic Gregorian calendar.
  - `FromUnixSeconds` is proved to invert the reference definition `UnixSeconds`.
  - `FormatTimestamp` is proved to read back through `ParseTimestamp`.
- `calendar_examples.dfy` (`CalendarExamples`): epoch 0, a 2023 value and both ends of the 32-bit range.
- `paths.dfy` (`Paths`): Windows `Path.Combine`, `GetFileName`, `GetDirectoryName`.
- `settings.dfy` (`Settings`): the options, the exceptions and the diagnostics.
- `lines.dfy` (`LineConversion`): one line as a pure step, and `ScanLines`, the loop state after a prefix of the input. `Emissions` is an independent reference definition of the output.
- `line_properties.dfy` (`LineProperties`): what the line loop guarantees.
- `destination.dfy` (`Destination`): the destination path and the truncate-or-append open.
- `run.dfy` (`RunSpec`): one `ConvertFile` call and a run over a list of files, on a file system that maps a path to its lines.
- `converter.dfy` (`Converter`): the classes `Converter` and `FileSystem`.
  - Their methods update the header flag, the overwrite-once flag and the files in place.
  - The fields of a line live in an array that the methods modify, as `parts` does in the source.
  - Each method is proved equal to its `RunSpec` or `LineConversion` counterpart.
- `scenarios.dfy` (`Scenarios`): small files run end to end.

The model follows the code as written where its behaviour may surprise:

- The input is always split on a comma. The configured separator is used only for writing.
- The line counter used in diagnostics is not advanced for a trimmed line.
- A data line with fewer than 2 or 7 fields throws `IndexOutOfRange`. The exception ends the
  file and the run, and `HasWrittenHeader` is then not stored back.
- A failed parse keeps the value 0. An epoch that fails to parse is rendered as `1970-01-01 00:00:00`.
- The overwrite-once flag is consumed only by an open that truncates an existing file.

## Model

| member | source | states |
|---|---|---|
| `Text.Split` | Source/Converter/Converter.cs:56 | splitting keeps empty fields: one field more than separators, no field holds the separator, and joining the fields gives the line back |
| `Text.SplitJoin` | Source/Converter/Converter.cs:56-61 | splitting the join of separator-free fields gives the same fields back |
| `Text.FirstField` | Source/Converter/Converter.cs:56-57 | field 0 of the split is the text before the first comma |
| `Text.JoinStartsWithFirst` | Source/Converter/Converter.cs:61 | a joined line starts with its first field |
| `Text.StartsWithIgnoreCase` | Source/Converter/Converter.cs:57 | a text that starts with the prefix exactly also passes the case-insensitive test |
| `Text.StartsWithIgnoreCaseExtend` | Source/Converter/Converter.cs:57 | only as many leading characters as the prefix has decide the case-insensitive prefix test |
| `Integers.TryParseInt32` | Source/Converter/Converter.cs:71 | a successful parse gives a 32-bit value |
| `Integers.ParseIntToString` | Source/Converter/Converter.cs:71 | the parse accepts the decimal rendering of every 32-bit value and refuses every value outside that range |
| `Integers.ParseIgnoresLeadingWhite` | Source/Converter/Converter.cs:71 | any run of leading white space is skipped: the parse of the padded text is the parse of the text |
| `Integers.ParseRefusesNoDigits` | Source/Converter/Converter.cs:71-74 | a field without a single digit, the empty field included, fails to parse |
| `Integers.ParseRefusesText` | Source/Converter/Converter.cs:71-74 | digits followed by a character that is not a digit, white space or NUL fail to parse, whatever comes after |
| `Calendar.LocateYear` | Source/Converter/Converter.cs:75 | the located offset lies within the located year |
| `Calendar.LocateYearCounts` | Source/Converter/Converter.cs:75 | the located year and offset name the same day as the starting year and offset |
| `Calendar.LocateMonth` | Source/Converter/Converter.cs:75 | a day of the year is placed in a valid month and day |
| `Calendar.LocateMonthCounts` | Source/Converter/Converter.cs:75 | the located month and day name the same day of the year as the starting month and offset |
| `Calendar.FromUnixSeconds` | Source/Converter/Converter.cs:75 | `UnixEpoch.AddSeconds(t)` is a valid date and time |
| `Calendar.FromUnixSecondsCounts` | Source/Converter/Converter.cs:75 | that date and time lies exactly `t` seconds after 1970-01-01 00:00:00 UTC |
| `Calendar.DaysBeforeNextYear` | Source/Converter/Converter.cs:75 | consecutive years are one year's length apart, leap years included |
| `Calendar.UnixSecondsInjective` | Source/Converter/Converter.cs:75 | two valid date-times with the same epoch seconds are equal, so the rendered instant is unique |
| `Calendar.Int32Years` | Source/Converter/Converter.cs:71-75 | every 32-bit epoch value lies in the years 1901 to 2038 |
| `Calendar.Fixed` | Source/Converter/Converter.cs:76 | a zero-padded field has exactly its width |
| `Calendar.FixedReadsBack` | Source/Converter/Converter.cs:76 | a zero-padded field is all digits and reads back as its number |
| `Calendar.FormatTimestamp` | Source/Converter/Converter.cs:76 | `yyyy-MM-dd HH:mm:ss` is always 19 characters |
| `Calendar.ParseTimestamp` | Source/Converter/Converter.cs:76 | only valid dates and times read back from the 19-character layout |
| `Calendar.TimestampCharacters` | Source/Converter/Converter.cs:76 | a timestamp holds only digits, `-`, a space and `:` |
| `Calendar.ParseFormat` | Source/Converter/Converter.cs:76 | every valid date-time with a four-digit year renders and reads back as itself |
| `Calendar.FormatUnixTime` | Source/Converter/Converter.cs:75-76 | the text that replaces field 1 is 19 characters |
| `Calendar.FormatUnixTimeReadsBack` | Source/Converter/Converter.cs:75-77 | the rendering of a 32-bit epoch reads back as a valid date-time with exactly those epoch seconds, in 1901 to 2038 |
| `Calendar.UnixTimeRendering` | Source/Converter/Converter.cs:75-76 | the rendering equals that of any valid date-time lying `t` seconds after the epoch |
| `CalendarExamples.FormatEpochZero` | Source/Converter/Converter.cs:75-77 | epoch 0 renders as `1970-01-01 00:00:00` |
| `CalendarExamples.FormatTraceEpoch` | Source/Converter/Converter.cs:75-77 | epoch 1700000000 renders as 2023-11-14 22:13:20 |
| `CalendarExamples.FormatMaxInt32` | Source/Converter/Converter.cs:75-77 | the largest 32-bit epoch renders as 2038-01-19 03:14:07 |
| `CalendarExamples.FormatMinInt32` | Source/Converter/Converter.cs:75-77 | the smallest 32-bit epoch renders as 1901-12-13 20:45:52 |
| `Paths.FileName` | Source/Converter/Converter.cs:111 | the file name holds no separator |
| `Paths.CombineKeepsBoth` | Source/Converter/Converter.cs:107 | a combined path ends with its second part and, unless that part is rooted, starts with the first, with at most one separator added |
| `Paths.NormalizeSeparators` | Source/Converter/Converter.cs:110 | the normalized directory holds no `/` and is no longer than its input |
| `Paths.NormalizeKeeps` | Source/Converter/Converter.cs:110 | a path already spelled with single `\` separators is left as it is |
| `Paths.DirectoryName` | Source/Converter/Converter.cs:110 | the directory name is shorter than the path and holds no `/`; it is null for a bare root or a blank path |
| `Paths.FileNameOfCombine` | Source/Converter/Converter.cs:111 | the file name of a name combined onto a directory is that name |
| `Paths.DirectoryNameOfCombine` | Source/Converter/Converter.cs:110 | the directory of a name combined onto a directory is that directory with its separators normalized, and exactly that directory when it is already normalized |
| `Paths.CombineRelative` | Source/Converter/Converter.cs:122-124 | combining a base, a relative directory and a name puts one `\` between each |
| `LineConversion.Fields` | Source/Converter/Converter.cs:56 | a split line always has field 0 |
| `LineConversion.EpochOf` | Source/Converter/Converter.cs:70-75 | the epoch used is a 32-bit value, 0 when the parse fails |
| `LineConversion.HeaderTestReadsFirstField` | Source/Converter/Converter.cs:57 | a line is a header exactly when the text before its first comma starts with `Mtr_Version`, ignoring case |
| `LineConversion.UnparsableLossIsDropped` | Source/Converter/Converter.cs:86 | only trimming drops a line; with trimming on, a loss that does not parse is dropped, because the failed parse leaves 0.0 below `double.Epsilon` |
| `LineConversion.RewriteFields` | Source/Converter/Converter.cs:70-96 | a written data row has as many fields as its input; field 1 is the UTC rendering of its epoch; field 6 is the current-culture loss exactly when numbers are converted; every other field is unchanged |
| `LineProperties.ScanStopsAfterFailure` | Source/Converter/Converter.cs:54-99 | after a line throws, later lines change nothing |
| `LineProperties.HeaderStepWritesOnce` | Source/Converter/Converter.cs:57-68 | a header line is written only while the guard is clear; the guard is then set and the counter advances |
| `LineProperties.DataStepCountsWrittenLines` | Source/Converter/Converter.cs:70-98 | a data line appends at most one line, exactly when it has field 6 and is not dropped; the counter advances by what was written; it throws exactly when field 6 is missing; the guard is untouched |
| `LineProperties.StepOnlyExtends` | Source/Converter/Converter.cs:54-98 | one iteration only extends the output by at most one line, the diagnostics and the counter by at most one; the guard is never cleared and only a header sets it; after an exception nothing changes |
| `LineProperties.ScanBounds` | Source/Converter/Converter.cs:52-99 | the loop writes at most one line per input line, the counter stays between 1 and one past the line count, a seeded guard stays set, and the only exception is `IndexOutOfRange` at an input position |
| `LineProperties.UnparsableLossLineIsDropped` | Source/Converter/Converter.cs:79-89 | with trimming on, a data line whose loss does not parse is reported and not written, and the counter stays |
| `LineProperties.StepOfCompleteLine` | Source/Converter/Converter.cs:54-98 | one complete line appends its emission, sets the guard on a header, and advances the counter unless the line is dropped |
| `LineProperties.ScanMatchesEmissions` | Source/Converter/Converter.cs:52-99 | when every data line has field 6, nothing throws; the output is each line's emission in input order; the guard ends set exactly when it was seeded or a header occurred |
| `LineProperties.ScanStopsAtShortLine` | Source/Converter/Converter.cs:70-79 | the first data line without field 6 ends the file with `IndexOutOfRange` at its position, keeping the earlier output and guard |
| `LineProperties.StepOnShortLine` | Source/Converter/Converter.cs:70-79 | a data line without field 6 throws and adds at most its epoch diagnostic |
| `LineProperties.UnparsableEpochRendersEpochZero` | Source/Converter/Converter.cs:70-77 | an unparsable epoch is reported with the line counter and rendered as `1970-01-01 00:00:00`; the line is still processed |
| `LineProperties.RejoinedHeaderIsHeader` | Source/Converter/Converter.cs:57-61 | a header re-joined with any separator still reads as a header |
| `LineProperties.RejoinedDataIsNotHeader` | Source/Converter/Converter.cs:96 | a re-joined data row does not read as a header when the separator is not a letter of the marker |
| `LineProperties.HeaderWrittenAtMostOnce` | Source/Converter/Converter.cs:52-67 | one call writes one header when its guard starts clear and ends set, and none otherwise; a seeded guard stays set |
| `LineProperties.HeaderLinesOfStep` | Source/Converter/Converter.cs:54-97 | one iteration adds a header line exactly when it sets the guard |
| `LineProperties.HeaderWrittenFromSeed` | Source/Converter/Converter.cs:52-67 | a seeded guard is never cleared by the loop |
| `LineProperties.CountsOfCompleteInput` | Source/Converter/Converter.cs:53-98 | the counter passes every line but the dropped ones; output lines equal input lines minus headers minus dropped lines, plus the header written |
| `LineProperties.NoTrimmingDropsNothing` | Source/Converter/Converter.cs:85-89 | without `TrimZeroLossLines` no data line is dropped |
| `LineProperties.CommaOutputSplitsBack` | Source/Converter/Converter.cs:96 | with a comma separator, a written data row splits back into its rewritten fields, as many as its input had |
| `LineProperties.RewrittenFieldsHaveNoComma` | Source/Converter/Converter.cs:96 | the rewritten fields contain no comma when the localized loss has none |
| `Destination.DestinationFor` | Source/Converter/Converter.cs:105-124 | single mode targets `Combine(DestinationPath, DestinationFile)`; mirror mode succeeds exactly when there is a directory at least as long as the full source root, and otherwise fails with that directory |
| `Destination.MirroredBelowRoot` | Source/Converter/Converter.cs:110-124 | a file `rel\name` below a normalized source root goes to `rel\name` below the destination directory |
| `Destination.MirroredAtRoot` | Source/Converter/Converter.cs:110-124 | a file directly in a normalized source root goes directly into the destination directory |
| `Destination.TrailingSeparatorRootThrows` | Source/Converter/Converter.cs:113-115 | as written, a source root given with a trailing separator makes the slice throw for files directly inside it |
| `Destination.TrimEndingSeparator` | Source/Converter/Converter.cs:113 | the corrected root is the given one or one trailing separator shorter |
| `Destination.TrimmedRootMirrorsAtRoot` | Source/Converter/Converter.cs:113-124 | with the root's trailing separator trimmed, a file directly in the root goes directly into the destination directory |
| `Destination.Open` | Source/Converter/Converter.cs:129-138 | it truncates exactly when overwrite is on, the file exists and the flag is clear, and then sets the flag; otherwise it keeps or creates the file; other files are unchanged |
| `Destination.NoSecondTruncation` | Source/Converter/Converter.cs:133-138 | once the flag is set, no open of any path truncates |
| `Destination.OpenTruncatesRunOutput` | Source/Converter/Converter.cs:131-138 | as written, opening a missing file leaves the flag clear, so the next open of that path truncates what the run wrote in between |
| `Destination.SecondDestinationKeepsStaleLines` | Source/Converter/Converter.cs:133-138 | as written, after one truncation another existing destination keeps its old lines |
| `Destination.OpenPerPath` | Source/Converter/Converter.cs:129-138 | the corrected open: the first open of each path in a run starts the file empty when overwriting, and every other open keeps it |
| `Destination.OpenPerPathKeepsRunOutput` | Source/Converter/Converter.cs:129-138 | with the corrected open, lines written after an open survive the next open of that path |
| `Destination.OpenPerPathReplacesEachDestination` | Source/Converter/Converter.cs:129-138 | with the corrected open, every destination loses its pre-run lines when overwriting, and keeps them otherwise |
| `RunSpec.ConvertFileAppends` | Source/Converter/Converter.cs:46-100 | a call only appends to its destination, emptied first only when its open truncated; every other file is unchanged |
| `RunSpec.HeaderFlagAfterCall` | Source/Converter/Converter.cs:100 | `HasWrittenHeader` is unchanged when the call throws; in single mode, once set it stays set |
| `RunSpec.ConvertCompleteFile` | Source/Converter/Converter.cs:46-100 | on a well-formed source, nothing throws; the destination gains the line emissions; the stored guard is the seed or a header seen |
| `RunSpec.CallOnlyAdds` | Source/Converter/Converter.cs:46-101 | a call never removes a file or a standard-error line, never clears the overwrite flag, and truncates only while the flag is clear, setting it |
| `RunSpec.CallAppendsWithoutOverwrite` | Source/Converter/Converter.cs:133-138 | without overwrite one call truncates nothing and every existing file keeps its lines as a prefix |
| `RunSpec.RunOnlyAdds` | Source/Converter/Converter.cs:36-40 | a run never removes a file or a standard-error line or clears the overwrite flag; in single mode a recorded header stays recorded |
| `RunSpec.RunStopsAfterFailure` | Source/Converter/Converter.cs:36-40 | an exception ends the run: later files change nothing |
| `RunSpec.AtMostOneTruncation` | Source/Converter/Converter.cs:133-138 | across a whole run at most one open truncates, exactly when the flag goes from clear to set |
| `RunSpec.AppendOnlyWithoutOverwrite` | Source/Converter/Converter.cs:133-138 | without overwrite nothing is truncated: every pre-existing file keeps its lines as a prefix |
| `RunSpec.SingleFileGainsOneHeader` | Source/Converter/Converter.cs:52-67 | in single mode the merged file gains at most one header over a whole run |
| `RunSpec.SingleFileCall` | Source/Converter/Converter.cs:52-67 | one single-mode call adds a header to the merged file only when it sets the guard |
| `RunSpec.SingleModeCall` | Source/Converter/Converter.cs:46-108 | one single-mode call on a well-formed source appends its emissions to the merged file under the current guard |
| `RunSpec.SingleModeMerges` | Source/Converter/Converter.cs:36-108 | in single mode, the merged file holds its kept lines, then each source's emissions in enumeration order; the guard ends as `GuardAfter`; no other file changes |
| `Converter.FileSystem.Truncate` | Source/Converter/Converter.cs:136 | `FileMode.Create` leaves the file empty |
| `Converter.FileSystem.OpenForAppend` | Source/Converter/Converter.cs:138 | `FileMode.Append` keeps the file or creates it empty |
| `Converter.FileSystem.WriteLine` | Source/Converter/Converter.cs:97 | a write appends one line to the destination |
| `Converter.FileSystem.Report` | Source/Converter/Converter.cs:73-82 | a diagnostic is appended to standard error |
| `Converter.Converter.constructor` | Source/Converter/Converter.cs:10-13 | a new converter starts with both flags clear |
| `Converter.Converter.OpenFileStream` | Source/Converter/Converter.cs:129-139 | the in-place open leaves the state that `Destination.Open` describes |
| `Converter.Converter.GetDestinationFile` | Source/Converter/Converter.cs:103-127 | resolves the path as `Destination.DestinationFor` does and opens it |
| `Converter.Converter.ConvertFile` | Source/Converter/Converter.cs:46-101 | the state after the call and its exception are those of `RunSpec.ConvertFile` |
| `Converter.Converter.ConvertLines` | Source/Converter/Converter.cs:52-99 | the loop appends exactly the output of `ScanLines` over the lines read, and stops at the first exception |
| `Converter.Converter.ConvertTurn` | Source/Converter/Converter.cs:54-98 | one turn of the loop takes the written lines, diagnostics, guard and counter from those of `ScanLines` over the earlier lines to those over one more |
| `Converter.Converter.ConvertLine` | Source/Converter/Converter.cs:54-68 | one iteration writes and updates the guard and counter as `StepFields` does |
| `Converter.Converter.ConvertDataLine` | Source/Converter/Converter.cs:70-98 | the in-place rewrite of `parts` writes and reports what `DataStep` does |
| `Converter.Converter.ReadLoss` | Source/Converter/Converter.cs:79-83 | the loss is the parsed value, or zero after a reported failure |
| `Converter.Converter.WriteTimestamp` | Source/Converter/Converter.cs:70-77 | field 1 of the array becomes the rendering of its epoch; no other field changes |
| `Converter.Converter.ReadEpoch` | Source/Converter/Converter.cs:70-74 | the epoch is the parsed value, or 0 after a reported failure |
| `Converter.Converter.Run` | Source/Converter/Converter.cs:36-40 | converting the given files in order leaves the state of `RunSpec.RunFiles` |
| `Scenarios.EmissionsOfPair` | Source/Converter/Converter.cs:52-98 | a header-plus-row file emits its header unless one came before, then its row unless dropped |
| `Scenarios.ZeroLossLineTrimmed` | Source/Converter/Converter.cs:85-89 | with trimming, a header plus a zero-loss row converts to the header alone |
| `Scenarios.RunOfTwo` | Source/Converter/Converter.cs:36-40 | a two-file run is the second call on the first call's state, unless the first throws |
| `Scenarios.TwoFilesMergeIntoExisting` | Source/Converter/Converter.cs:36-138 | merging two files into an existing destination with overwrite truncates once and keeps only the first header, with both rows in order |
| `Scenarios.SecondOpenTruncates` | Source/Converter/Converter.cs:36-138 | merging two files into a missing destination with overwrite truncates at the second open and keeps only the second file's row |

## Left out

- `Run` (Source/Converter/Converter.cs:15-34): the directory checks, `Directory.CreateDirectory` of the destination root and the progress lines on standard output are I/O glue. The driver is `Converter.Converter.Run` over a given list of files. `Directory.GetFiles` and its enumeration order are not modelled.
- Source/Converter/Program.cs and the command-line parsing it does are not part of this model. `Settings.Options` holds the option values, and `Settings.Defaults` holds the defaults that Source/Converter/Options.cs declares.
- `double.TryParse`, the comparison `loss < double.Epsilon` and `loss.ToString(CultureInfo.CurrentCulture)` are floating point and locale behaviour. They are the function values of `LineConversion.Numerics`, with a type parameter standing for `double`. `LineConversion.UnparsableLossIsDropped` needs one fact of `double`: 0.0 is below `double.Epsilon`. It takes that fact as the hypothesis `LineConversion.ZeroIsBelowEpsilon`.
- `Path.GetFullPath` of the source root is a parameter of the converter. `Directory.CreateDirectory` of the destination's directory is modelled only by its refusal of a path with no directory part.
- File contents are lines. Encodings, newline characters, `StreamWriter` buffering and `FileShare` are not modelled, except that reading the file that is open as the destination fails.
- I/O errors other than the ones `Settings.Failure` lists (disk full, permissions) are not modelled.
- The text of the standard-error lines is not modelled. Only the raw value and the line counter are kept, in `Settings.Diagnostic`.
- `Text.StartsWithIgnoreCase`: folds ASCII letters only. The marker is ASCII, but a non-ASCII character that the invariant culture folds onto an ASCII letter is not recognised. Characters that the culture-aware comparison ignores (zero-width joiners and other ignorable code points) are not skipped either.
- `Paths.DirectoryName`: only drive roots (`C:`, `C:\`) and a single leading separator are recognised as roots. UNC (`\\server\share`) and device (`\\?\`) prefixes are not handled.
- Paths are compared as exact strings: the file map, and the test that a source is the open destination. The file system's case-insensitivity and the equivalence of `/` and `\` are not modelled.
- `LineProperties.HeaderWrittenAtMostOnce`: counts headers by re-reading the written lines. So it requires the output separator not to fold to a letter of `Mtr_Version`.
- `LineProperties.HeaderLinesOfStep`: requires the output separator not to fold to a letter of `Mtr_Version`, because it too counts headers by re-reading the written line.
- `RunSpec.SingleFileGainsOneHeader`: requires the same separator restriction, because it counts the header lines of the merged file.
- `RunSpec.SingleFileCall`: requires the same separator restriction, for the same reason.
- `LineProperties.CommaOutputSplitsBack`: stated for the default comma separator only, and for a localized loss without a comma.
- `RunSpec.SingleModeMerges`: requires the merged file to exist already, or overwriting to be off or used up. The other case is the first finding below.
- The run and the `Converter` class use the open as the source writes it, `Destination.Open`. The corrected `Destination.OpenPerPath` stands beside it.
- The run and the `Converter` class slice by the full root as the source does. The corrected `Destination.TrimEndingSeparator` is applied only in `Destination.TrimmedRootMirrorsAtRoot`.

## Findings

| source | as written | input that shows it | evidently intended | confidence | as-written member | corrected member |
|---|---|---|---|---|---|---|
| Source/Converter/Converter.cs:133-138 | an open that creates a missing destination does not set `_alreadyOverwritten` | single-file mode, overwrite on, merged file absent, two sources of a header and a data row each: the second open truncates the file, which keeps only the second file's data row and no header | a run never truncates what it wrote itself | high; not executed | `Scenarios.SecondOpenTruncates` | `Destination.OpenPerPathKeepsRunOutput` |
| Source/Converter/Converter.cs:133-138 | one run-wide flag, so only the first existing destination is truncated | mirror mode, overwrite on, two sources in different directories whose destinations both exist: the second destination keeps its old lines before the new ones | each destination's pre-run content is replaced ("overwrite destination files") | medium; not executed | `Destination.SecondDestinationKeepsStaleLines` | `Destination.OpenPerPathReplacesEachDestination` |
| Source/Converter/Converter.cs:113-115 | the directory is sliced by the length of the full source root, which keeps a trailing separator | mirror mode, source root `C:\data\`, a file `C:\data\a.csv`: its directory `C:\data` is shorter than the root, so the slice throws `ArgumentOutOfRangeException` | files directly in the root go directly into the destination directory | medium; not executed | `Destination.TrailingSeparatorRootThrows` | `Destination.TrimmedRootMirrorsAtRoot` |
