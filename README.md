# Mars mission analyzer: a verified model

This project models the core of `mars-mission-analyzer`. The tool reads a
pipe-delimited mission log and keeps the completed Mars missions that pass
validation. It then ranks them by duration and reports the longest ones.

Six modules cover the core:

- `Text` (text.dfy) holds the standard-library string behaviour the tool relies on:
  - `char::is_whitespace`, which tests Unicode White_Space;
  - `str::trim`;
  - `str::split` on one character;
  - `str::eq_ignore_ascii_case`.
- `Numeric` (numeric.dfy) holds three parts:
  - `u32::from_str`, with its optional `+`, no sign for negatives and overflow rejection;
  - the decimal `Display` of integers;
  - the grammar `f64::from_str` accepts.
- `Missions` (missions.dfy) holds:
  - the `Mission` record;
  - `Mission::from_line`;
  - `is_valid_security_code`, plus a reference matcher for its regular expression;
  - `is_completed_mars_mission`;
  - `is_comment_or_metadata`.
- `Pass` (pass.dfy) models the loop of `process_file`.
  - Each line gets an `Outcome`: skipped, malformed, not Mars, not completed, zero duration, bad code, or accepted.
  - The six `Statistics` counters are tallies over those outcomes.
  - The loop is imperative, as in the source. `ProcessLines` handles the lines, `ProcessLine` handles one line, and `CountParsed` runs the checks after parsing.
  - Each of the three is proved against those tallies.
- `Ranking` (ranking.dfy) models `sort_by` plus `truncate` in `main`.
  - The sort runs in place on an `array<Mission>`, as a stable insertion sort.
  - It is proved equal to a functional specification, `SortedByDuration`.
  - `SortedByDuration` is proved to be ordered, a permutation and stable.
- `Report` (report.dfy) covers the rest of `main`:
  - the failure reason when nothing was stored;
  - the run as a whole, with I/O removed;
  - the header and rows that `print_csv_output` prints.

The file is not read. The pass takes the lines already read, as a sequence of
strings, and the first line is number 1. A success rate is carried as its
trimmed text. The model only checks that the text is an `f64` literal.

## Model

| member | source | states |
|---|---|---|
| Text.IsWhitespace | src/main.rs:87-95 | `char::is_whitespace`, the set `trim` strips here and at line 125: exactly the 25 characters with the Unicode White_Space property (tab to carriage return, space, U+0085, U+00A0, U+1680, U+2000 to U+200A, U+2028, U+2029, U+202F, U+205F, U+3000) |
| Text.Trim | src/main.rs:87-95 | `str::trim` as used on every field: the result is no longer than its input (see the lemmas below for its shape) |
| Text.TrimShape | src/main.rs:87-95 | the trimmed field has no whitespace at either end; it is empty exactly when the piece is all whitespace; it is the slice of the piece after its leading whitespace |
| Text.TrimOfPadded | src/main.rs:87-95 | a trimmed core surrounded by any whitespace trims back to exactly that core |
| Text.TrimIdempotent | src/main.rs:87-95 | trimming twice is trimming once |
| Text.Split | src/main.rs:81 | `line.split('|')` yields one more piece than there are separators, and no piece holds a separator |
| Text.JoinSplit | src/main.rs:81 | joining the pieces with the separator gives back the line: nothing is lost by the split |
| Text.SplitJoin | src/main.rs:81 | splitting separator-free pieces joined by the separator gives back those pieces |
| Text.SplitAround | src/main.rs:81 | a separator splits a line into the pieces of its two sides |
| Text.EqIgnoreAsciiCase | src/main.rs:117-118 | `str::eq_ignore_ascii_case`, also used at lines 176 and 182: a string always equals itself this way, and strings of different lengths never do |
| Text.EqIgnoreAsciiCaseIffLowercaseEqual | src/main.rs:117-118 | the case-insensitive comparison holds exactly when both strings are equal after ASCII lowercasing |
| Numeric.FormatNat | src/main.rs:292-301 | the `Display` form of an integer is a non-empty digit string denoting that integer, with no leading zero unless it is `0` |
| Numeric.ParseU32 | src/main.rs:92-93 | `parse::<u32>` succeeds only with a value that fits in 32 bits |
| Numeric.ParseFormatRoundTrip | src/main.rs:92-93 | every 32-bit value written in decimal, with or without a `+`, parses back to itself |
| Numeric.ParseRejectsOverflow | src/main.rs:92-93 | a numeral above 4294967295 is rejected, not wrapped |
| Numeric.ParseRejectsMinus | src/main.rs:92-93 | a leading `-` is always rejected, so "-5" is not a duration |
| Numeric.ParseU32Inverse | src/main.rs:92-93 | whatever parses is an optional `+`, then zeros, then the decimal form of the value returned |
| Numeric.ParseZeroPadded | src/main.rs:92-93 | the converse of `ParseU32Inverse`: any number of zeros followed by the decimal form of a 32-bit value, with or without a `+` in front, parses to that value, so "0005" and "+007" are accepted |
| Numeric.LeadingZerosIgnored | src/main.rs:92-93 | leading zeros do not change the value of a numeral |
| Numeric.IsFloatLiteral | src/main.rs:94 | the texts `parse::<f64>().ok()?` lets through: an optional sign, then `Digit+`, `Digit+ '.' Digit*` or `Digit* '.' Digit+` with an optional `e`/`E` exponent of optional sign and at least one digit, or `inf`, `infinity` or `nan` in any letter case; an accepted text is non-empty, and without a sign it is a decimal number or one of the three- or eight-letter words |
| Numeric.FloatLiteralShape | src/main.rs:94 | a text `parse::<f64>` accepts is non-empty and made only of digits, signs, `.` and ASCII letters, so it holds no `,` and no `|` |
| Numeric.FloatLiteralExamples | src/main.rs:94 | rates such as 98.7, 95.0 and 100 parse, and so does "7." |
| Numeric.FloatLiteralCounterexamples | src/main.rs:94 | "", ".", "abc", "1e" and "1.2.3" do not parse |
| Missions.ConvertFields | src/main.rs:87-95 | the eight pieces `parts[0]` to `parts[7]` convert left to right; `parts[4]` and `parts[5]` (crew size and duration) become numbers and the others stay text |
| Missions.ConvertFieldsSpec | src/main.rs:87-95 | the conversion succeeds exactly when every one of the eight fields converts, and then each value is that field's conversion |
| Missions.FromLine | src/main.rs:80-108 | fewer than eight pieces gives `None`; a parsed mission carries the line number it was given |
| Missions.FromLineFields | src/main.rs:80-108 | `from_line` as a whole: `None` exactly when there are fewer than eight pieces or the crew size, duration or success rate fails to parse; otherwise the eight trimmed pieces |
| Missions.FromLineWellFormed | src/main.rs:87-95 | every parsed mission has trimmed, separator-free text fields, 32-bit numbers and a success rate that parses as a float |
| Missions.FromLineRoundTrip | src/main.rs:80-108 | any well-formed mission, written out with any whitespace around its fields, is parsed back to itself with the new line number |
| Missions.FromLineIgnoresExtraFields | src/main.rs:80-108 | pieces after the eighth do not change the result |
| Missions.FromLineRejectsNegativeDuration | src/main.rs:93 | a duration field starting with `-` makes the line malformed |
| Missions.IsValidSecurityCode | src/main.rs:110-113 | `is_valid_security_code`: an accepted code is made only of ASCII capitals, digits and `-`, and it is not its own ASCII lowercasing, so a lowercase code is refused |
| Missions.SecurityCodeMatchesPattern | src/main.rs:110-113 | the character-by-character check accepts exactly the codes the anchored regular expression `^[A-Z]{3}-[0-9]{3}-[A-Z]{3}$` matches |
| Missions.SecurityCodeExamples | src/main.rs:403-447 | the source's own accepted code and its seven rejected shapes, plus the lowercase `xrt-421-zqp`, which is rejected |
| Missions.IsCompletedMarsMission | src/main.rs:116-121 | `is_completed_mars_mission`: a mission that passes has a four-letter destination and a nine-letter status ("mars" and "completed" up to case), a positive duration and an eleven-character security code |
| Missions.NotCompletedMarsExamples | src/main.rs:483-549 | another destination, another status, a zero duration or a malformed code each fail `is_completed_mars_mission` |
| Missions.IsCommentOrMetadata | src/main.rs:124-131 | `is_comment_or_metadata`: a blank or all-whitespace line is skipped, and a skipped line trims to nothing or to text starting with `#`, `S` or `C` |
| Missions.IndentedCommentIsSkipped | src/main.rs:124-131 | a `#` after any amount of whitespace marks a skipped line |
| Missions.DigitStartIsNotSkipped | src/main.rs:124-131 | a line whose first non-whitespace character is a digit is not skipped |
| Missions.DatedLineIsNotSkipped | src/main.rs:124-131 | a line that parses into a mission whose date starts with a digit is never skipped |
| Pass.Stage | src/main.rs:164-204 | the checks after parsing: a stage is never `Skipped`; it is `Malformed` exactly when `from_line` gave `None`; a stored mission is the parsed one and satisfies `is_completed_mars_mission` |
| Pass.Classify | src/main.rs:156-204 | the fate of one line: a stored mission carries the line's number and satisfies `is_completed_mars_mission` |
| Pass.StageAccepted | src/main.rs:175-207 | after parsing, a mission is stored exactly when it satisfies `is_completed_mars_mission`, and the stored mission is the parsed one |
| Pass.ClassifyAccepted | src/main.rs:156-207 | a line is stored exactly when it is not skipped, parses, and its mission satisfies `is_completed_mars_mission` |
| Pass.ClassifyNumbers | src/main.rs:142-207 | a stored mission carries the 1-based number of its line |
| Pass.Outcomes | src/main.rs:141-142 | the `enumerate` numbering: one outcome per line, line `k` (0-based) classified with number `k + 1` |
| Pass.OutcomesAreNumbered | src/main.rs:141-142 | every stored mission in the outcomes of the lines carries the number `k + 1` of its line `k` and satisfies `is_completed_mars_mission` |
| Pass.Bump | src/main.rs:143-206 | one line adds 1 to `total_lines`, 1 to `data_lines` unless skipped, and 1 to `valid_missions` exactly when stored |
| Pass.StatsOfAppend | src/main.rs:141-208 | the counters after one more line are the previous counters bumped by that line's outcome, and its mission is appended when stored |
| Pass.TallyMonotone | src/main.rs:141-208 | a counter bumped whenever another one is counts at least as much |
| Pass.TallyTotal | src/main.rs:143 | `total_lines` counts every line |
| Pass.SkippedPlusDataIsTotal | src/main.rs:156-161 | skipped lines and data lines add up to all lines |
| Pass.ErrorsBreakdown | src/main.rs:164-204 | `errors` is the number of parse failures plus zero durations plus bad codes |
| Pass.StatisticsNested | src/main.rs:161-206 | valid <= completed Mars <= Mars <= data lines <= total lines, and total lines is the number of lines |
| Pass.AcceptedCount | src/main.rs:205-206 | there is one stored mission per count of `valid_missions` |
| Pass.AcceptedMissionsOrdered | src/main.rs:141-207 | stored missions are completed Mars missions with line numbers in 1..n, in strictly increasing line order |
| Pass.CountParsed | src/main.rs:164-207 | the checks after parsing, in order: the counters move and the mission is pushed as that line's outcome dictates |
| Pass.ProcessLine | src/main.rs:142-207 | one iteration of the loop: the counters and stored missions after the line are those after its outcome |
| Pass.ProcessLines | src/main.rs:141-208 | the loop: the counters and stored missions are the tallies of the lines' outcomes; the counters are nested; `valid_missions` equals the number stored; `errors` is the three kinds of error; stored missions are completed Mars missions in line order |
| Ranking.SortedByDuration | src/main.rs:343 | `sort_by` with the descending-duration comparator, as insertion of each mission in turn: the result has the input's length (SortPermutes, SortOrders and SortIsStable below prove it a permutation, ordered and stable) |
| Ranking.Insert | src/main.rs:343 | inserting one mission into the sorted prefix lengthens it by one |
| Ranking.InsertPlaces | src/main.rs:343 | the comparator places a mission right after the last one lasting at least as long |
| Ranking.SortPermutes | src/main.rs:343 | sorting only reorders the missions (same multiset) |
| Ranking.SortOrders | src/main.rs:343 | sorted durations never increase |
| Ranking.SortIsStable | src/main.rs:343 | for every duration, the missions of that duration keep their relative order |
| Ranking.SortKeepsTiesInLineOrder | src/main.rs:343 | missions taken in line order come out with ties in line order |
| Ranking.SortingExample | src/main.rs:564-607 | the source's own case: durations 100, 500, 300 sort to 500, 300, 100 |
| Ranking.Ranked | src/main.rs:343-347 | the ranked list has length `min(top, len)` |
| Ranking.RankedOrder | src/main.rs:343-347 | the ranked list is ordered by non-increasing duration, and ties keep line order when the input was in line order |
| Ranking.RankedPermutation | src/main.rs:343-347 | the ranked list is a prefix of a permutation of the missions |
| Ranking.RankedAreLongest | src/main.rs:343-347 | any mission left out of the ranking lasts no longer than every mission in it |
| Ranking.MakeRoom | src/main.rs:343 | the strictly shorter tail of the sorted prefix shifts one place right, the rest stays put, and the returned slot sits after the last mission lasting at least as long |
| Ranking.InsertAt | src/main.rs:343 | one in-place insertion step equals `Insert` on the old prefix and leaves the rest of the array unchanged |
| Ranking.SortByDuration | src/main.rs:343 | the in-place sort leaves the array equal to `SortedByDuration` of its old contents |
| Ranking.RankMissions | src/main.rs:343-347 | sort and truncate give `Ranked`: length `min(top, len)`, non-increasing durations, drawn from the missions |
| Report.FailureReasonOf | src/main.rs:328-338 | the first counter test that holds; with nested counters, `AllInvalid` is given exactly when some completed Mars mission was counted, and `NoDataLines` exactly when no line or no data line was counted |
| Report.TallyZero | src/main.rs:328-338 | a counter is zero exactly when no line bumps it |
| Report.FailureReasonMeaning | src/main.rs:328-338 | the reasons, first match first: no data line at all; data lines, none of them Mars; Mars missions, none completed; or some completed Mars mission |
| Report.AllInvalidMeansRejected | src/main.rs:336-338 | when nothing was stored and the last reason is given, some completed Mars mission had a zero duration or a bad code |
| Report.NoDataLinesMeansAllSkipped | src/main.rs:330-331 | "no data lines" is reported exactly when every line is blank, a comment or metadata |
| Report.StoredAreWellFormed | src/main.rs:164-207 | every stored mission satisfies `is_completed_mars_mission` and has the shape `from_line` gives |
| Report.Run | src/main.rs:319-347 | the counters are those of the lines; the run fails exactly when nothing was stored, and then gives the first matching reason; otherwise the ranked list is `Ranked` of the stored missions, has length `min(top, valid_missions)`, is ordered with ties in line order, and holds only well-formed completed Mars missions |
| Report.CsvHeader | src/main.rs:289 | the header splits at its commas into the ten column names |
| Report.CsvFields | src/main.rs:291-300 | a row has as many cells as the header has columns, the rank `idx + 1` first and the line number last |
| Report.CsvRow | src/main.rs:291-300 | the row printed for the mission at index `idx` starts with its rank `idx + 1` in decimal |
| Report.StoredCommaFree | src/main.rs:289-301 | in a stored mission's row, only the date and mission ID could hold a comma |
| Report.CsvRowColumns | src/main.rs:291-301 | a row whose text cells hold no comma splits back into its ten cells: rank, date, mission ID, "Mars", "Completed", crew size, duration, success rate, code and line number |
| Report.CommaInMissionIdShiftsColumns | src/main.rs:291-301 | cells are not quoted, so a comma in a mission ID makes the row split into more than ten columns |
| Report.CsvOutput | src/main.rs:288-301 | the output has one line more than there are ranked missions, and its first line splits into the ten column names |
| Report.CsvOutputColumns | src/main.rs:288-302 | the output is the header, then one row per ranked mission, and every row splits back into its mission's cells |
| Report.CsvOutputRanks | src/main.rs:291-293 | the first cell of the i-th row is the rank i in decimal, counting from 1 |

## Left out

- Reading the file is left out, along with the error when it cannot be opened and the per-line read error. A line that fails to read adds to `errors` and `total_lines` in the source. Here the lines arrive already read, as strings, so that branch cannot happen.
- The command line (`clap`), the usage message and the exit codes are left out. `Run` returns a failure value where the source exits with status 1.
- Printing is left out: the default and verbose text output, the JSON document (`serde_json`) and the per-line warnings on stderr. For the CSV format the model states which lines are printed, not the printing itself.
- Report.CsvFields, Report.CsvRow, Report.CsvRowColumns and Report.CsvOutputColumns: the success-rate cell holds the trimmed text, not the `f64` value's `Display` form. The success rate is never converted to a binary floating-point value. The model keeps its trimmed text, checks it against the grammar `f64::from_str` accepts, and puts that text in the CSV cell. The source prints the `f64` value's `Display` form instead (for example "95.0" prints as "95").
- The `regex` crate is not modelled. The pattern is modelled by a small matcher for its five pieces, and that matcher is proved equivalent to the character check.
- Counter width (`usize`) and line-number overflow are not modelled, since counts are unbounded naturals. Crew size and duration are bounded by `u32` through the parse.
- Ranking.SortByDuration: the standard library's `sort_by` is an adaptive merge sort. The model uses a stable insertion sort in its place, and proves it equal to the stable order the comparator defines. The source promises only that order, not an algorithm.
- Behaviour of the code worth noting (all of it modelled):
  - `data_lines` counts every line that is not skipped, including lines with fewer than eight fields.
  - A duration such as "-5", or any crew size, duration or rate that does not parse, makes the line malformed. Such a line counts as an error before the Mars check, so it bumps none of the Mars counters.
  - `top` = 0 keeps no mission.
  - The sort is the standard library's stable sort.
  - The security code has eleven characters (`AAA-999-AAA`).
