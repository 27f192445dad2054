# PQ Report Harmonics Extractor: a verified model of the extraction core

The PQ-Extractor reads power-quality report PDFs. It finds the four harmonic tables in them:
- Harmonic Voltage Full Time Range
- Harmonic Current Full Time Range
- Harmonic Voltage Daily
- Harmonic Current Daily

It then validates their rows, splits them by percentile and parity, reports the limit violations and names the worksheets of the Excel export.

This Dafny project models that core, found in `Harmonic-backup.py`, and proves what it promises.

The modules follow the program's parts:

| module | file | what it models |
|---|---|---|
| `Config` | config.dfy | the report template: table titles, the header phrases, `SECTION_BOUNDARIES`, `SUPPORTED_TABLES`, and the measured column names |
| `Strings`, `Numbers` | strings.dfy, numbers.dfy | Python's `upper`, `strip`, `find`, `in`, `split('_')[-1]` and `re.sub(r'\s+', ' ', …)`; `int`/`str` of naturals; `pd.to_numeric` on a decimal cell; the highlighter's `extract_value` |
| `Rows` | rows.dfy | `_extract_structured_data`, the post-match logic of `extract_table_data_from_text` and the merge of `_extract_text_data` |
| `Locator` | locator.dfy | the page loop of `extract_tables_from_pdf`: header detection, section bounds, `_check_boundary_hit` and the active table carried from page to page; the class `Extractor` holds `tables` and `active_table` and updates them in place |
| `Normalize` | normalize.dfy | `process_table_data` and its missing-harmonics list |
| `Splitter` | splitter.dfy | `split_table` |
| `Violations` | violations.dfy | `analyze_failures`, the violation summary's sort order, and the `apply_row` fail predicate of `highlight_fails` |
| `Naming` | naming.dfy | `parse_filename_for_sheet_name`, `get_table_abbreviation`, the per-file sheet names, the collision loop of the bulk export (class `SheetBook` holds `sheet_file_map`), and the component text taken from a file name |
| `Seqs`, `Wrappers` | seqs.dfy, wrappers.dfy | `Filter`, subsequences, `Option` |

How the document and its regular expressions are represented:
- A PDF is a sequence of `Page(text, tables)`. Each structured table is a sequence of rows of optional cell strings.
- The regular-expression engine is a `Finder`: a function from the whitespace-collapsed text to the match-group tuples of each of the three patterns.

Where the code is imperative, the model is too:
- The page loop, the row collectors, `analyze_failures` and the sheet-name loop are methods with loops.
- Each method is proved equal to a function.
- The properties are proved about that function.

Numbers are exact `real`s. Python's floored `% 2` on floats is written out (`Splitter.Mod2`), and so is `int()` truncation (`Normalize.Harmonic`).

## Model

| member | source | states |
|---|---|---|
| Config.HeaderIsUpperTitle | Harmonic-backup.py:38-62 | the `SECTION_BOUNDARIES` key of each table is exactly the upper-cased entry of `SUPPORTED_TABLES`, so the boundary lookup never misses |
| Config.ActiveTerminatorsAreAll | Harmonic-backup.py:328-330 | the "HARMONIC 5" filter of the boundary check removes no configured terminator of Harmonic Current Daily |
| Config.TitleMentionsCurrent | Harmonic-backup.py:336 | the case-sensitive `"Current" in table_name` test holds exactly for the two current tables |
| Config.TitleMentionsDaily | Harmonic-backup.py:530 | the `"Daily" in table_name` test holds exactly for the two daily tables |
| Config.Phases | Harmonic-backup.py:26-35 | every table has three different phase names, none containing `_` |
| Config.MeasuredColumns | Harmonic-backup.py:26-35 | every table has three measured columns, and the text after the last `_` of column `i` is phase `i` of the table |
| Strings.Strip | Harmonic-backup.py:287 | `strip()` leaves a result with no whitespace at either end |
| Strings.StripIsSlice | Harmonic-backup.py:287 | `strip()` removes exactly the leading and trailing whitespace and keeps the middle |
| Strings.StripOfStripped | Harmonic-backup.py:301 | stripping a string without outer whitespace changes nothing |
| Strings.FindFrom | Harmonic-backup.py:241 | `find` returns the least position at or after the start where the pattern occurs, or -1 when it occurs nowhere there |
| Strings.FindIffContains | Harmonic-backup.py:240-241 | `find` succeeds exactly when the `in` test does |
| Strings.LowerContains | Harmonic-backup.py:426-427 | `lower()` keeps every occurrence of a pattern, lower-cased, so `'fail' in str(result).lower()` holds whenever the result contains a spelling that lower-cases to `fail` |
| Strings.Collapse | Harmonic-backup.py:169 | after `re.sub(r'\s+', ' ', text)` every whitespace is a single space and no two whitespace characters are adjacent; the text is empty only if the input was and starts with whitespace exactly when the input does |
| Strings.CollapseKeepsText | Harmonic-backup.py:169 | the substitution keeps every non-whitespace character, in order and with its multiplicity |
| Strings.CollapseTrailing | Harmonic-backup.py:169 | the result ends with whitespace exactly when the input does |
| Strings.CollapseNoSpace | Harmonic-backup.py:169 | text without whitespace is left unchanged |
| Strings.CollapseLeading | Harmonic-backup.py:169 | a leading whitespace run, whatever its length, becomes one space before the collapsed rest (which starts with a non-whitespace character or is empty) |
| Strings.CollapseJoin | Harmonic-backup.py:169 | a whitespace run of any length between a text ending in a non-whitespace character and a text starting with one becomes exactly one space between their collapsed forms |
| Strings.CollapseIdempotent | Harmonic-backup.py:169 | collapsing whitespace twice is collapsing it once |
| Strings.NatToString | Harmonic-backup.py:610 | `str(n)` of a natural is digits without a leading zero |
| Strings.DigitsValueOfNatToString | Harmonic-backup.py:610 | `int(str(n)) == n` |
| Strings.NatToStringInjective | Harmonic-backup.py:610 | different counters give different suffixes |
| Strings.LastSegment | Harmonic-backup.py:646 | `split('_')[-1]` has no `_` and is the suffix after the last `_` (or the whole text) |
| Strings.LastSegmentAfterUnderscore | Harmonic-backup.py:646 | the last segment of `a + "_" + t` is `t` when `t` has no `_` |
| Numbers.ParseUnsigned | Harmonic-backup.py:343 | a parsed unsigned decimal is non-negative |
| Numbers.ParseDecimal | Harmonic-backup.py:362-365 | only non-empty text parses, and a negative value comes only from a leading `-` |
| Numbers.ParseDigits | Harmonic-backup.py:343 | a digit string parses to its integer value |
| Numbers.ParseNatToString | Harmonic-backup.py:343 | `to_numeric(str(n)) == n` |
| Numbers.ParseFormatted | Harmonic-backup.py:362-365 | the decimal `w.f` parses to `w + 0.f` |
| Numbers.RemoveChar | Harmonic-backup.py:403 | `replace('%', '')` removes every `%`, keeps every other character, and changes nothing when there is no `%` |
| Numbers.RemoveCharIsFilter | Harmonic-backup.py:403 | `replace('%', '')` keeps the other characters in order and as often as they occur |
| Numbers.ExtractValue | Harmonic-backup.py:399-407 | `extract_value` on a string is never negative, and is 0.0 when the string holds no digit |
| Numbers.ExtractFormatted | Harmonic-backup.py:399-407 | on the decimal `w.f` the highlighter's `extract_value` reads the same number `to_numeric` does |
| Numbers.ExtractAtStart | Harmonic-backup.py:402-404 | on a `%`-free text starting with a digit, `extract_value` reads the number matched at position 0 |
| Numbers.ExtractPointed | Harmonic-backup.py:402-404 | on digits `d`, a point and digits `f` at the start of a `%`-free text, `extract_value` is `d` plus the fraction `0.f` |
| Rows.IndexValue | Harmonic-backup.py:314 | `int(row[0])` is read exactly from a digit-only text cell, as its decimal value, or from a non-negative `int` cell, as itself |
| Rows.TableRows | Harmonic-backup.py:285-302 | one table yields at most one row per table row, each with a digit-only index in 2..50 |
| Rows.CleanCellStripped | Harmonic-backup.py:301 | every cleaned cell is its own strip (`None` becomes `""`) |
| Rows.CleanRowShape | Harmonic-backup.py:287-302 | an accepted row becomes nine stripped cells with a digit-only index in 2..50 |
| Rows.TableRowsMembers | Harmonic-backup.py:285-302 | a row is extracted from a table exactly when some accepted row of that table cleans to it |
| Rows.TableRowsSound | Harmonic-backup.py:285-302 | every extracted row comes from an accepted row of the table |
| Rows.TableRowsComplete | Harmonic-backup.py:285-302 | every accepted row of the table is extracted |
| Rows.StructuredRowsMembers | Harmonic-backup.py:283-302 | a row is among a page's structured rows exactly when a table with more than one row has an accepted row yielding it |
| Rows.StructuredRowsSound | Harmonic-backup.py:283-302 | every structured row comes from an accepted row of a table with more than one row |
| Rows.StructuredRowsComplete | Harmonic-backup.py:283-302 | every accepted row of a table with more than one row is extracted |
| Rows.StructuredRowsShape | Harmonic-backup.py:281-306 | every structured row has a digit-only index in 2..50 and nine stripped cells |
| Rows.StructuredRows | Harmonic-backup.py:283-302 | every row `_extract_structured_data` appends for a page has a digit-only index in 2..50 |
| Rows.MatchRow | Harmonic-backup.py:176-213 | a match yields a row exactly when group 1 is a number in 2..50 and there are at least 9 groups (or 6 groups, when no results are expected); the row's index is that number |
| Rows.PatternRows | Harmonic-backup.py:176-216 | one pattern's matches yield at most one row each; every match that yields a row contributes it, every row comes from such a match, and each row has an `int` index in 2..50 |
| Rows.TextRows | Harmonic-backup.py:175-216 | every match of every pattern that yields a row contributes it, every text row comes from some pattern's match, and each has an `int` index in 2..50 |
| Rows.ResultsNeedNineGroups | Harmonic-backup.py:195-213 | with `has_results` a bare six-group match never yields a row, and a nine-group match has its results read as `Pass(...)` |
| Rows.ExtractTableDataFromText | Harmonic-backup.py:167-219 | the nested loops return every accepted match of every pattern over the collapsed text, pattern by pattern and in match order |
| Rows.CollectPatternRows | Harmonic-backup.py:176-216 | the inner loop returns the rows of one pattern's matches in order |
| Rows.NewTextRows | Harmonic-backup.py:314-321 | the merge keeps exactly the text rows whose `int` index lies in 2..50 and was absent when the merge began, in their order |
| Rows.WithText | Harmonic-backup.py:308-321 | the merge touches only the active table, keeps its rows as a prefix, and adds only rows with a fresh `int` index in 2..50 |
| Rows.TextMergeKeepsStructured | Harmonic-backup.py:308-321 | the merge keeps the table as a prefix, adds only rows with an index in 2..50 that was absent when the merge began, and so adds nothing for an index a structured row holds |
| Rows.ExtractionOnlyAppends | Harmonic-backup.py:281-321 | extraction into a table keeps every other table, keeps the target's old rows as a prefix, and adds the structured rows before the text rows |
| Locator.Initial | Harmonic-backup.py:223 | extraction starts with an empty row list for every table and no active table |
| Locator.CheckStaysActive | Harmonic-backup.py:262-272 | the active table stays active exactly when none of its configured terminators is on the page, or it is Harmonic Current Daily and the page mentions "HARMONIC 5:" |
| Locator.BoundaryHit | Harmonic-backup.py:323-332 | `_check_boundary_hit` is true exactly when some configured terminator of the table occurs on the page; the "HARMONIC 5" filter drops none |
| Locator.SectionEnd | Harmonic-backup.py:246-249 | the end index is the least position, at or after the search start, of any terminator; no terminator starts before it |
| Locator.Bounds | Harmonic-backup.py:240-251 | the section holds the whole header and ends within the page |
| Locator.FindSectionEnd | Harmonic-backup.py:246-249 | the loop over the terminators computes that least position, or the page length |
| Locator.LocateSection | Harmonic-backup.py:240-251 | the header page's `start_idx` and `end_idx` are the section bounds |
| Locator.BoundsMeaning | Harmonic-backup.py:242-251 | the section starts at the first occurrence of the header and ends at the first terminator found after the header, or at the end of the page |
| Locator.CollectStructured | Harmonic-backup.py:281-306 | `_extract_structured_data`'s loops append exactly the structured rows of the page |
| Locator.CollectTableRows | Harmonic-backup.py:284-306 | the inner loop appends exactly the accepted rows of one table |
| Locator.CollectNewTextRows | Harmonic-backup.py:314-321 | the loop of `_extract_text_data` keeps exactly the text rows with a fresh index in 2..50, in order |
| Locator.ExtractTables | Harmonic-backup.py:221-279 | the result has a row list for every table, empty when the document has at most one page, and every gathered row has a digit-only or an `int` index in 2..50 |
| Locator.Extractor.constructor | Harmonic-backup.py:223-228 | the extractor starts in the initial state |
| Locator.Extractor.AppendStructured | Harmonic-backup.py:281-306 | the active table's list grows by the page's structured rows; nothing else changes |
| Locator.Extractor.AppendText | Harmonic-backup.py:308-321 | the active table's list grows by the merged text rows; nothing else changes |
| Locator.Extractor.VisitHeaderOf | Harmonic-backup.py:240-257 | a header found on the page makes its table active and appends its section's rows |
| Locator.Extractor.VisitHeaders | Harmonic-backup.py:239-257 | the header loop over `SUPPORTED_TABLES` does what `HeaderPass` says |
| Locator.Extractor.ContinueActive | Harmonic-backup.py:259-274 | the end of the page body does what `AfterHeaders` says |
| Locator.Extractor.ProcessPage | Harmonic-backup.py:230-274 | one page updates the state as `Step` says |
| Locator.ExtractTablesFromPdf | Harmonic-backup.py:221-279 | the page loop, starting after the first page, returns `ExtractTables` |
| Locator.HeaderPassWithoutHeaders | Harmonic-backup.py:239-241 | a page without headers leaves the header loop's state unchanged |
| Locator.LastHeaderActive | Harmonic-backup.py:239-252 | when several headers are on one page, the last one tried in `SUPPORTED_TABLES` order is active |
| Locator.ActivePersists | Harmonic-backup.py:262-264 | the active table stays active across a header-free page without its terminators, and that page's rows are appended to it |
| Locator.ActiveCleared | Harmonic-backup.py:266-274 | a header-free page with a terminator of the active table clears it and adds no row (outside the "HARMONIC 5:" exception) |
| Locator.Harmonic5KeepsCurrentDaily | Harmonic-backup.py:269-272 | Harmonic Current Daily stays active on a page mentioning "HARMONIC 5:", and its rows are still extracted |
| Locator.InactivePageIgnored | Harmonic-backup.py:259-274 | with no active table, a header-free page changes nothing |
| Locator.HeaderPageActive | Harmonic-backup.py:252-272 | after a header page, the last header found is active, unless the page also holds one of that table's terminators (and is not a "HARMONIC 5:" page of Harmonic Current Daily), in which case no table is active |
| Locator.ExtractIntoGrows | Harmonic-backup.py:281-321 | extracting into one table only appends to it |
| Locator.HeaderPassGrows | Harmonic-backup.py:239-257 | the header loop only appends rows |
| Locator.StepGrows | Harmonic-backup.py:230-274 | a page never removes or changes rows already gathered; every table only grows at its end |
| Locator.FirstPageSkipped | Harmonic-backup.py:230-232 | the first page never affects the result |
| Locator.ExtractIntoExtracted | Harmonic-backup.py:281-321 | extracting a section adds only rows with a digit-only or an `int` index in 2..50 |
| Locator.HeaderPassExtracted | Harmonic-backup.py:239-257 | the header loop adds only such rows |
| Locator.StepExtracted | Harmonic-backup.py:230-274 | a page adds only such rows |
| Locator.StepsExtracted | Harmonic-backup.py:229-274 | the page loop gathers only such rows |
| Normalize.DedupFrom | Harmonic-backup.py:353 | `drop_duplicates` keeps only input rows, and none whose key is already taken |
| Normalize.DedupFromUnique | Harmonic-backup.py:353 | no two kept rows share a key |
| Normalize.Dedup | Harmonic-backup.py:353 | after `drop_duplicates` no two rows share (numeric N, raw `[%]` text), and the rows kept are input rows in input order |
| Normalize.DedupFromSubseq | Harmonic-backup.py:353 | the kept rows are a subsequence of the input |
| Normalize.DedupFromKeys | Harmonic-backup.py:353 | every key not already taken keeps a row |
| Normalize.DedupFromFirst | Harmonic-backup.py:353 | each kept row is the first input row with its key |
| Normalize.Deduplicated | Harmonic-backup.py:353 | `drop_duplicates` keeps, in input order, exactly the first row of every key |
| Normalize.Survivors | Harmonic-backup.py:342-367 | every surviving row has a numeric N other than 1 in 2..50, and numeric `[%]`, Reg Max and measured cells |
| Normalize.ToRow | Harmonic-backup.py:362-367 | a surviving row's N lies in 2..50 |
| Normalize.Process | Harmonic-backup.py:334-367 | empty input gives an empty frame; every output row's N lies in [2, 50] |
| Normalize.SurvivorsOrderedAndUnique | Harmonic-backup.py:342-367 | surviving rows keep their input order and no two share (N, raw `[%]`) |
| Normalize.FilterKeepsUnique | Harmonic-backup.py:367 | dropping rows keeps the keys unique |
| Normalize.ProcessUnique | Harmonic-backup.py:353-367 | no two output rows come from rows with the same (N, raw `[%]`) |
| Normalize.MissingFrom | Harmonic-backup.py:356 | the missing list holds exactly the expected indices not found, strictly ascending |
| Normalize.Missing | Harmonic-backup.py:355-356 | the missing list holds only indices in 2..50, strictly ascending |
| Normalize.MissingIffAbsent | Harmonic-backup.py:355-356 | an index is reported missing exactly when it lies in 2..50 and no row passing the index filters has it as its `int(N)` |
| Normalize.ExtractedIndexWhole | Harmonic-backup.py:343-352 | a row either extractor produces passes the N filters, and its numeric N is whole: a structured index passed `isdigit`, a text index is an `int` |
| Normalize.ProcessWhole | Harmonic-backup.py:334-367 | validating extracted rows yields only whole harmonic orders |
| Splitter.Mod2 | Harmonic-backup.py:381-382 | Python's float `% 2` lies in [0, 2) |
| Splitter.Insert | Harmonic-backup.py:380 | inserting adds exactly the one row |
| Splitter.InsertSorted | Harmonic-backup.py:380 | inserting into a list sorted by N keeps it sorted |
| Splitter.SortByN | Harmonic-backup.py:380 | `sort_values("N")` returns the same rows ascending in N |
| Splitter.FilterSorted | Harmonic-backup.py:381-382 | selecting rows of a sorted list keeps it sorted |
| Splitter.SplitOddEven | Harmonic-backup.py:377-383 | both halves of `split_odd_even` are ascending in N and hold only input rows of their parity |
| Splitter.HalvesMember | Harmonic-backup.py:377-383 | a row is in the odd (even) half exactly when it is an input row with odd (even) N |
| Splitter.SplitTable | Harmonic-backup.py:372-388 | the four outputs of `split_table` are ascending in N and hold only input rows of their percentile and parity |
| Splitter.SplitMember | Harmonic-backup.py:385-388 | each output holds exactly the input rows of its percentile (exactly 95.0 or 99.0) and parity |
| Splitter.SplitDisjoint | Harmonic-backup.py:372-388 | no row lands in two of the four outputs |
| Splitter.WholeHasParity | Harmonic-backup.py:381-382 | a whole N is odd or even |
| Splitter.HalvesPartition | Harmonic-backup.py:377-383 | for whole N, the two halves together hold every input row exactly as often as the input |
| Splitter.SplitUnion | Harmonic-backup.py:372-388 | for whole N, the four outputs together are exactly the 95th- and 99th-percentile input rows, none lost and none repeated |
| Splitter.SplitProcessed | Harmonic-backup.py:334-388 | splitting what the validator makes of extracted rows loses and repeats no 95th- or 99th-percentile row |
| Splitter.SplitGathered | Harmonic-backup.py:221-388 | for every table of a document, splitting its validated rows loses and repeats no 95th- or 99th-percentile row |
| Violations.RowViolationsUpTo | Harmonic-backup.py:645-658 | the first `c` columns of a row give at most `c` violations |
| Violations.Violations | Harmonic-backup.py:636-666 | a table gives at most three violations per row |
| Violations.MeasuredCells | Harmonic-backup.py:431-434 | the highlighter reads three measured cells per row, cell `j` giving measured value `j` |
| Violations.ResultCells | Harmonic-backup.py:431-434 | each measured cell has a paired result cell, and it is present |
| Violations.AnalyzeFailures | Harmonic-backup.py:636-666 | the nested loops accumulate the violations row by row, then column by column |
| Violations.RowViolationsUpToMembers | Harmonic-backup.py:645-658 | a violation of the first `c` columns is one of a column below `c` whose value exceeds Reg Max |
| Violations.RowViolationsMembers | Harmonic-backup.py:645-658 | a row yields a violation for exactly the columns whose value is strictly above Reg Max |
| Violations.ViolationsMembers | Harmonic-backup.py:643-658 | the violations are exactly one per (row, measured column) whose value is strictly above the row's Reg Max |
| Violations.ViolationsAppend | Harmonic-backup.py:643-658 | analysing two row blocks lists the first block's violations first (row-major order) |
| Violations.MakeViolation | Harmonic-backup.py:645-658 | a violation records the measured value, Reg Max as allowed and `[%]` as time limit; its exceedance is measured minus allowed, positive when the value exceeds Reg Max; its phase has no `_`; for N in 2..50 its harmonic is `int(N)`, in 2..50 |
| Violations.ViolationsExceed | Harmonic-backup.py:650-658 | every violation's exceedance is measured minus allowed, and it is positive |
| Violations.ViolationPhases | Harmonic-backup.py:645-646 | every violation names one of the table's phases |
| Violations.AtLimitPasses | Harmonic-backup.py:650 | a value equal to Reg Max is not a violation |
| Violations.InsertEntry | Harmonic-backup.py:708 | inserting adds exactly the one entry |
| Violations.InsertEntryOrdered | Harmonic-backup.py:708 | inserting into a list in report order keeps it in report order |
| Violations.ReportSort | Harmonic-backup.py:708 | the summary's sort returns the same entries, largest exceedance first and ties by larger harmonic |
| Violations.TagMembers | Harmonic-backup.py:692 | a tagged entry is exactly a violation of that table |
| Violations.CombinedMembers | Harmonic-backup.py:686-698 | the concatenation holds exactly the violations of the listed tables, each tagged with its own table |
| Violations.Summary | Harmonic-backup.py:686-708 | the summary is in report order and holds the tagged violations of the four tables, each as often as they occur |
| Violations.SummaryExact | Harmonic-backup.py:686-708 | the summary is in report order and lists exactly the violations of the four tables, each tagged with its table |
| Violations.Threshold | Harmonic-backup.py:412-415 | the threshold is a numeric Reg Max itself, 0.0 when it is missing or unparseable, and the decimal value of a digit string |
| Violations.CellValue | Harmonic-backup.py:399-407 | `extract_value` gives NaN (here `None`) exactly for a missing cell, a number itself, never a negative value for a text, and 0.0 for a text without digits |
| Violations.SaysFail | Harmonic-backup.py:425-428 | only a present result can say "fail", and one containing "fail", "Fail" or "FAIL" does |
| Violations.Flagged | Harmonic-backup.py:419-428 | a missing value is flagged exactly when its result says "fail"; a number above the threshold is always flagged; a result that says "fail" always flags the column; otherwise the column is flagged exactly when its value is present and exceeds the threshold |
| Violations.ApplyRow | Harmonic-backup.py:409-438 | a measured cell is filled exactly when its value exceeds the threshold (0.0 when Reg Max is missing) or its result says "fail"; the paired result cell is filled with it; N is highlighted exactly when some cell is |
| Violations.HighlightAgreesWithViolations | Harmonic-backup.py:409-433 | on a validated row the highlighter flags a column exactly when `analyze_failures` reports it or its result says "fail" |
| Naming.CloseFrom | Harmonic-backup.py:122 | the lazy `(.*?)\)` ends at the first `)` with no newline before it, and fails when every `)` follows a newline |
| Naming.GroupFrom | Harmonic-backup.py:122 | a found group holds no `)` and no newline |
| Naming.FirstOpen | Harmonic-backup.py:122 | the leftmost position where `\((.*?)\)` can match: an `(` closed on its line, with no such `(` before it |
| Naming.GroupFromLeftmost | Harmonic-backup.py:122 | `re.findall(...)[0]` is the text between the leftmost `(` that can open a match and the first `)` after it, and there is none when no `(` can |
| Naming.ComponentTextLeftmost | Harmonic-backup.py:122-123 | the component is the group of the leftmost match, and "Not found" when there is none |
| Naming.NoParenthesisNotFound | Harmonic-backup.py:122-123 | a name without `(` gives "Not found" |
| Naming.GroupAfterPlainPrefix | Harmonic-backup.py:122 | the first group starts at the first `(` when a `)` follows on the same line |
| Naming.ComponentOfName | Harmonic-backup.py:122-123 | the component of `a(c)b` is `c` when `a` has no `(` and `c` has no `)` or newline |
| Naming.PiecesOfName | Harmonic-backup.py:122 | in `a(c)b` the `(` after `a` is the first, and the `)` after `c` closes it |
| Naming.SkipSpaces | Harmonic-backup.py:556 | `\s*` consumes the maximal run of whitespace |
| Naming.DayNumberAt | Harmonic-backup.py:556 | a day match needs `DAY` at its position; it exists exactly when a digit follows the spaces after `DAY`, and its group is the maximal digit run there |
| Naming.PeriodAt | Harmonic-backup.py:556-558 | the period letter is `D` exactly when `DAY` occurs at the position, and `N` exactly when `NIGHT` does and `DAY` does not (the alternation tries `DAY` first); otherwise there is none |
| Naming.MatchAt | Harmonic-backup.py:556-563 | a match at `p` starts with `DAY`; its digits are the maximal run after the spaces; the day-only pattern matches exactly where a day number does, with `D`; the day-and-period pattern's letter is the `DAY`/`NIGHT` after the digits and spaces, and the pattern does match wherever a day number is followed, after spaces, by `DAY` or `NIGHT` |
| Naming.FirstMatch | Harmonic-backup.py:556 | `re.search` returns the match at the least matching position, and none when no position matches |
| Naming.SearchFound | Harmonic-backup.py:556 | a search result is a match at some position of the name |
| Naming.FirstMatchLeast | Harmonic-backup.py:556 | a match at a position with no match before it is exactly the one the search returns |
| Naming.SearchLeast | Harmonic-backup.py:556 | `re.search` for a day pattern returns the match at the least position where it matches |
| Naming.SearchShape | Harmonic-backup.py:556-563 | a search result has a `DAY`, day digits and `D` or `N` |
| Naming.RemoveAll | Harmonic-backup.py:565 | `replace('.pdf', '')` never lengthens the name, adds no character, and changes nothing when `.pdf` does not occur |
| Naming.RemoveExtension | Harmonic-backup.py:565 | `(stem + ".pdf").replace('.pdf', '')` is `stem` when the stem has no `.pdf` of its own |
| Naming.FallbackPrefix | Harmonic-backup.py:565-566 | the fallback prefix is the first four (or fewer, if there are fewer) word characters of the name with `.pdf` removed |
| Naming.SheetPrefix | Harmonic-backup.py:548-566 | a name with a `7` and a `DAY` gets "7Days"; every prefix is "7Days", day digits with `D` or `N`, or at most four word characters; a name without `DAY` gets the fallback |
| Naming.SheetPrefixDayAndPeriod | Harmonic-backup.py:552-558 | without a `7` and a `DAY`, the prefix is the day digits and period letter of the `DAY\s*(\d+)\s*(DAY\|NIGHT)` match at the least position where it matches |
| Naming.SheetPrefixDayOnly | Harmonic-backup.py:552-563 | without a `7` and a `DAY`, and with no day-and-period match anywhere, the prefix is the digits of the `DAY\s*(\d+)` match at the least position, followed by `D` |
| Naming.SheetPrefixNoDay | Harmonic-backup.py:552-566 | without a `7` and a `DAY`, and with no match of either day pattern, the prefix is the fallback |
| Naming.SevenDays | Harmonic-backup.py:552-553 | the prefix is "7Days" exactly when the upper-cased name contains a `7` and a `DAY`, anywhere |
| Naming.NoDayFallback | Harmonic-backup.py:548-566 | a name without `DAY` gets the first four word characters of its stem |
| Naming.PeriodNeedsDay | Harmonic-backup.py:556-563 | wherever the day-and-period pattern matches, the day-only pattern matches too |
| Naming.TableAbbreviation | Harmonic-backup.py:568-586 | the first letter is `I` exactly for a name containing CURRENT and `V` exactly for one containing VOLTAGE but not CURRENT; the second is `F` exactly for FULL TIME RANGE and `D` exactly for DAILY without it (case-insensitive) |
| Naming.AbbreviationOfTitle | Harmonic-backup.py:568-586 | the four tables abbreviate to VF, IF, VD and ID |
| Naming.AbbreviateVoltageFull | Harmonic-backup.py:568-586 | the Voltage Full Time Range title contains "VOLTAGE" and "FULL TIME RANGE" and not "CURRENT" once upper-cased |
| Naming.AbbreviateCurrentFull | Harmonic-backup.py:568-586 | the Current Full Time Range title contains "CURRENT" and "FULL TIME RANGE" once upper-cased |
| Naming.AbbreviateVoltageDaily | Harmonic-backup.py:568-586 | the Voltage Daily title contains "VOLTAGE" and "DAILY", and neither "CURRENT" nor "FULL TIME RANGE", once upper-cased |
| Naming.AbbreviateCurrentDaily | Harmonic-backup.py:568-586 | the Current Daily title contains "CURRENT" and "DAILY" and not "FULL TIME RANGE" once upper-cased |
| Naming.PerFileSheetName | Harmonic-backup.py:529-535 | a per-file sheet name starts `H_`, its letters are `I`/`V` for a Current/other title and `D`/`F` for a Daily/other title, then `_`; with a limit of up to 24 characters it is the whole `H_..._{limit}_{O|E}`, and never over 31 characters |
| Naming.PerFileSheetNames | Harmonic-backup.py:529-535 | every per-file sheet name `H_{I|V}{D|F}_{95|99}_{O|E}` has 9 characters (so the `[:31]` cut does nothing), and different tables, limits or halves get different names |
| Naming.BulkBaseName | Harmonic-backup.py:602-605 | the base sheet name is `{prefix}_H_{abbrev}` cut to its first 31 characters |
| Naming.PySliceTo | Harmonic-backup.py:612 | `s[:n]` is the prefix of `s` of length `min(n, len(s))`, or `max(len(s) + n, 0)` for negative `n` |
| Naming.CandidateEnds | Harmonic-backup.py:610-613 | every numbered candidate ends in `_` and its counter |
| Naming.CandidatesDistinct | Harmonic-backup.py:610-613 | different counters give different candidate names |
| Naming.TriedSize | Harmonic-backup.py:609-614 | the candidates for counters 1..n are n different names |
| Naming.TriedBound | Harmonic-backup.py:609-614 | the loop reaches counter `c` only when at least `c` names are taken, so it ends |
| Naming.NatToStringLength | Harmonic-backup.py:612 | a counter below `10^d` has at most `d` digits |
| Naming.CandidateLength | Harmonic-backup.py:610-613 | a candidate whose counter has at most 30 digits fits in 31 characters |
| Naming.FirstFreeLength | Harmonic-backup.py:604-614 | the first free name fits in 31 characters while fewer than 10^30 - 1 names are taken |
| Naming.FreeSheetName | Harmonic-backup.py:607-614 | the loop returns the first candidate not yet taken, every earlier candidate being taken |
| Naming.SheetBook.constructor | Harmonic-backup.py:593 | `sheet_file_map` starts empty |
| Naming.SheetBook.AddSheet | Harmonic-backup.py:601-617 | the new sheet name was not a key before and is the first free candidate; the map gains exactly that key, mapped to the file, and no existing entry changes; the name has at most 31 characters |

## Left out

- The PDF parser (`pdfplumber`: `open`, `extract_text`, `extract_tables`) is not modelled. A document is given as its pages, each a text and its structured tables.
- The three extraction regular expressions and the `Pass (x)` to `Pass(x)` rewrite before them are not modelled; a `Finder` gives their match groups. The model covers what is done with each match.
- `extract_metadata` is modelled only for the component text. Its time, block, feeder and company patterns read the first page of the PDF and feed only the display.
- Streamlit, pandas and openpyxl I/O is left out: the page setup, sidebar, `display_*` functions, Excel writing, cell fills, `highlight_fails_in_excel` and the CSV download. They are presentation; the model keeps only the fail predicate and the sheet-name strings.
- `app.py`, `7-Day Summary Analyzer.py` and `Graph Extractor.py` are not part of this model.
- Floating point is modelled as exact reals. IEEE rounding of `value - threshold`, for example, is not modelled.
- Numbers.ParseDecimal: accepts an optional sign, digits and one point. The exponents, `inf`, `nan` and surrounding whitespace that `pd.to_numeric` also accepts are not modelled.
- Strings.Upper and Strings.Lower: change the case of ASCII letters only, so they keep the length. Python's `upper()` can lengthen text ('ß' becomes "SS"). The section positions Harmonic-backup.py:240-251 finds in `page_text.upper()` and then uses to slice `page_text` can then be shifted; the model does not capture that shift. Likewise `\d`, `\w` and `isdigit` are ASCII-only in the model, whereas Python's accept other Unicode digits and letters.
- Splitter.SortByN and Violations.ReportSort: pandas' default sort is not stable, so the order of rows with equal keys is left open by the source. The model uses a stable insertion sort and states only order and permutation.
- Naming.SheetBook.AddSheet: the 31-character bound is proved only while fewer than 10^30 - 1 sheets exist. Beyond that the counter has more than 30 digits, and Python's negative slice no longer bounds the name.
- Splitter.SplitUnion: requires every N to be whole. Every row that reaches `split_table` has a whole N: a structured index must pass `isdigit` (Harmonic-backup.py:286) and a text index is `int()` of its group (line 178). Normalize.ProcessWhole proves this, and Splitter.SplitGathered states the lossless split for every gathered table without the requirement.
- Violations.SaysFail: the contract names the spellings "fail", "Fail" and "FAIL". Other mixed-case spellings such as "fAiL" are flagged by the function as well, but the contract does not list them.
- The `except` paths of the row extractors and of `process_table_data` are not modelled. In the model the guarded conversions cannot fail, so no row is lost to an exception.
- The `try`/`except` around each row of `analyze_failures` is not modelled. Its rows are validated rows whose cells are already numbers.
