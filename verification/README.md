# polish2aretomo3 reconciliation core, in Dafny

This project models the core of `polish2aretomo3.py`. That script takes an AreTomo3 `.aln`
alignment table and the per-tilt values of a RELION polish run, and merges them. Its core has
five parts:

- **Row classification and reading** (`parse_aln_file`, `ALN_DATA_LINE`). A line is a data line
  when it matches `^\s*\d+\s+`. It becomes an `AlignmentRow` only when it also splits into at
  least ten fields. The ten fields are read with `int()` and `float()`.
- **Column lookup** (`find_column` inside `parse_relion_projections`). The four required columns
  of the projection table are found by case-insensitive substring match on their labels.
- **Tilt matching** (`match_tilts`). Both angle lists are sorted by stable index sort. A dynamic
  programme picks the order-preserving matching of all projections that minimises the total
  absolute angle difference, and on a tie it prefers skipping. Backtracking then builds the
  dictionary `{aln_index: proj_index}`.
- **Table rewriting** (`write_updated_aln`). Header lines and unmatched rows are copied. Each
  matched row takes the polished rotation and tilt, and its shifts are converted from Ångström to
  unbinned pixels. Every other column is kept.
- **Series selection and the per-series loop** (`main`). The `--include` and `--exclude` lists are
  parsed and the discovered series are filtered. Each selected series is then read, matched and
  rewritten. The first exception ends the run. The loop is modelled with the rewrite as written
  and with the corrected rewrite of the finding below.

Modules, one file each:

| file | module | models |
|---|---|---|
| `results.dfy` | `Results` | `Option` and `Result`, for exceptions and absent values |
| `aln_text.dfy` | `AlnText` | whitespace and digit classes, the data-line pattern, `str.split()` |
| `aln_table.dfy` | `AlnTable` | `AlignmentRow`, row lines, `parse_aln_file` |
| `projections.dfy` | `Projections` | `find_column`, the four-column lookup, projection rows |
| `index_sort.dfy` | `IndexSort` | `sorted(range(n), key=...)`, a stable index sort |
| `tilt_match.dfy` | `TiltMatch` | `match_tilts` as a pure reference (`MatchSpec`) and as loops (`MatchTilts`) |
| `aln_rewrite.dfy` | `AlnRewrite` | `write_updated_aln`, both as written and corrected |
| `series_filter.dfy` | `SeriesFilter` | include/exclude parsing and the stem filter |
| `pipeline.dfy` | `Pipeline` | the per-series loop of `main` and the run's outcome |

The model takes some inputs as plain values instead of reading them:

- The `.aln` file arrives as its list of lines. These are the lines `splitlines(keepends=True)`
  gives, with line terminators kept.
- The STAR table arrives as column labels and a rectangular table of numbers.
- Whether a polish STAR file exists for a series arrives as a boolean.

Three operations the model cannot see are function parameters:

- `parseReal` stands for `float()` on a field. It returns `None` when Python would raise
  `ValueError`.
- `formatRow` stands for the f-string that writes an updated row.
- `glob` / `matches` stands for `fnmatch.fnmatch`.

Angles and shifts are `real`. Python's `float('inf')` in the DP table is the `Cost` datatype. A
raised exception is a `Failure` carrying what raised it.

## Model

| member | source | states |
|---|---|---|
| AlnText.DataLineIsPattern | polish2aretomo3.py:24 | the scanning test `IsDataLine` accepts exactly the lines matching `^\s*\d+\s+`, i.e. optional whitespace, at least one digit, then whitespace; both directions |
| AlnText.DataLineFirstField | polish2aretomo3.py:68-76 | on a data line the first field of `split()` is all digits, so `int(fields[0])` is given a plain decimal numeral and cannot raise for one of at most 4300 digits |
| AlnText.SplitJoinBlank | polish2aretomo3.py:71 | round trip: whitespace-free words joined by single blanks split back into exactly those words |
| AlnText.FieldsKeepNonSpace | polish2aretomo3.py:71 | `split()` loses only whitespace: the fields concatenated are the line's non-whitespace characters in order |
| AlnText.NumberedLine | polish2aretomo3.py:68-71 | a line written as blank-separated words starting with a number is a data line and splits back into those words |
| AlnTable.ParseRowSucceeds | polish2aretomo3.py:75-87 | a row line is read exactly when each of its fields 1 to 9 is a number for `float()` |
| AlnTable.ParseRowValues | polish2aretomo3.py:75-87 | a row read from a line has `sec` equal to the integer value of field 0, and `rot` … `tilt` are `float()` of fields 1 … 9 in column order |
| AlnTable.ParseRowFailure | polish2aretomo3.py:77-85 | a row line that is not read reports the first field that `float()` rejects; all earlier fields parse |
| AlnTable.ParseAln | polish2aretomo3.py:62-89 | a successful read yields one row per row line, a row line being a data line with at least ten fields |
| AlnTable.ParseAlnRows | polish2aretomo3.py:67-87 | the rows are the row lines read one by one, in file order: row k is the k-th row line parsed |
| AlnTable.RowsCarryTheirLines | polish2aretomo3.py:86 | each row's `raw_line` is the row line it was read from |
| AlnTable.ParseAlnSucceeds | polish2aretomo3.py:67-87 | reading succeeds exactly when every row line reads; header lines and short data lines never cause an error |
| AlnTable.ParseAlnFailure | polish2aretomo3.py:67-87 | a failed read reports the error raised on the first row line of the file that does not read; every row line before it reads |
| AlnTable.ReadRowsInOrder | polish2aretomo3.py:75-87 | reading a list of row lines gives, at each position, the row parsed from the line at that position |
| AlnTable.ReadRowsSucceeds | polish2aretomo3.py:75-87 | reading a list of row lines succeeds exactly when each of them reads |
| AlnTable.ReadRowsFailure | polish2aretomo3.py:67-87 | a failed read of row lines reports the error of the first line that does not read; every line before it reads |
| AlnTable.RowLineAt | polish2aretomo3.py:67-73 | the row line at file position k is row number "row lines before k" |
| AlnTable.RowNumbered | polish2aretomo3.py:67-73 | conversely, every row number belongs to some row line of the file |
| AlnTable.RowCountGrows | polish2aretomo3.py:67-73 | a row line is numbered below every row line after it, so file order and row order agree |
| Projections.FindColumnIsFirstHit | polish2aretomo3.py:105-110 | `find_column` raises exactly when no keyword occurs, ignoring case, in any label; otherwise it returns the first column matching the first keyword that matches anything |
| Projections.FindColumn | polish2aretomo3.py:105-110 | the column returned is a valid position, and the `KeyError` carries the keywords tried |
| Projections.LabelMatchIgnoresCase | polish2aretomo3.py:108 | a label matches a keyword exactly when their lower-case forms match |
| Projections.FindLayout | polish2aretomo3.py:112-116 | the four columns are found exactly when each single lookup succeeds, and the layout holds the four lookups' columns |
| Projections.LayoutFailureNamesFirstMissing | polish2aretomo3.py:113-116 | a missing column is reported with the keywords of the first of the four lookups (tilt, z-rotation, x shift, y shift) that fails |
| Projections.LayoutColumnsMatch | polish2aretomo3.py:108-116 | each column found carries its keyword in its label, ignoring case, and no earlier column carries it |
| Projections.ParseProjections | polish2aretomo3.py:92-127 | the read succeeds exactly when the four columns are found, failing with the first missing one; on success there is one projection row per table row, in order, each read through the columns found |
| IndexSort.SortIndices | polish2aretomo3.py:142-143 | the result lists every index exactly once, in ascending angle order, with equal angles in ascending index order |
| IndexSort.StableOrderIsUnique | polish2aretomo3.py:142-143 | there is only one stable ascending order, so any stable sort, Python's included, gives `SortIndices` |
| IndexSort.OrderSortsAngles | polish2aretomo3.py:142-143 | the angles listed in a stable order are non-decreasing |
| TiltMatch.BestFiniteIff | polish2aretomo3.py:146-168 | `dp[i][j]` is finite exactly when `i <= j` |
| TiltMatch.TieSkips | polish2aretomo3.py:163-168 | on a tie between matching and skipping, the cell skips: it takes the skip cost, records no match, and leaves alignment tilt `j-1` unmatched |
| TiltMatch.BestIsMinimal | polish2aretomo3.py:150-168 | no order-preserving matching of the first i sorted projections into the first j sorted alignment tilts costs less than `dp[i][j]` |
| TiltMatch.TraceIsMatching | polish2aretomo3.py:170-179 | from a feasible cell, backtracking pairs every projection with a distinct alignment position, in increasing order and below j |
| TiltMatch.TraceAttainsBest | polish2aretomo3.py:170-179 | from a feasible cell, the backtracked matching costs exactly `dp[i][j]` |
| TiltMatch.TraceIsOptimal | polish2aretomo3.py:146-179 | backtracking from `(n_proj, n_aln)` yields an order-preserving matching of all projections whose total difference is minimal among all such matchings |
| TiltMatch.EntriesAreTiltMatching | polish2aretomo3.py:171-179 | mapping a full order-preserving matching back through both stable orders gives an injective, in-range, order-preserving dictionary that uses every projection |
| TiltMatch.MatchSpecProperties | polish2aretomo3.py:130-181 | the dictionary is empty exactly when there are no projections or fewer alignment tilts than projections; keys are in `[0, n_aln)` and values in `[0, n_proj)`; no projection is used twice; pairs keep their stable sorted order on both sides; with `0 < n_proj <= n_aln` every projection is matched |
| TiltMatch.MatchSpecOptimal | polish2aretomo3.py:145-179 | when `0 < n_proj <= n_aln`, the dictionary is an optimal order-preserving matching of the sorted angles, mapped back to the original indices |
| TiltMatch.MatchSpecExact | polish2aretomo3.py:130-181 | when the sorted projection angles occur, in order, among the sorted alignment angles, every matched pair has exactly equal angles |
| TiltMatch.FillRow | polish2aretomo3.py:153-168 | one pass of the inner loop gives `dp[i][j]` equal to the reference recurrence for every j, and `backtrack[i][j]` true exactly when matching is strictly cheaper |
| TiltMatch.FillTables | polish2aretomo3.py:146-168 | the filled `backtrack` table holds, at every inner cell, whether matching was strictly cheaper than skipping in the reference recurrence |
| TiltMatch.Backtrack | polish2aretomo3.py:170-181 | the reconstruction loop returns exactly the dictionary of the reference backtracking path, which is an order-preserving matching |
| TiltMatch.MatchTilts | polish2aretomo3.py:130-181 | the loops compute the reference `MatchSpec`; the result is an injective, in-range, order-preserving dictionary, empty exactly when `n_proj == 0` or `n_aln < n_proj` |
| AlnRewrite.UpdatedRow | polish2aretomo3.py:218-231 | a matched row keeps `sec`, `gmag`, `smean`, `sfit`, `scale`, `base`; it takes rotation `zrot` and tilt `ytilt`; and `tx * pixel_size == dx_ang * xshift_sign`, `ty * pixel_size == dy_ang * yshift_sign` |
| AlnRewrite.ShiftRoundTrip | polish2aretomo3.py:221-223 | with signs of ±1, the written pixel shift converts back to the polished shift in Ångström |
| AlnRewrite.UpdateWithOwnValues | polish2aretomo3.py:218-231 | updating a row with projection values equal to its own (shifts converted back) leaves all ten values unchanged |
| AlnRewrite.RewriteSucceeds | polish2aretomo3.py:204-232 | the rewrite succeeds exactly when every line's output succeeds |
| AlnRewrite.RewriteOutput | polish2aretomo3.py:204-232 | a successful rewrite keeps the line count and order, and writes at each position that line's own output, computed with the row index counted from the lines before it |
| AlnRewrite.BinningIgnored | polish2aretomo3.py:191 | the written file does not depend on `binning` |
| AlnRewrite.WriteUpdatedAln | polish2aretomo3.py:184-235 | as written: `row_index` advances on every data line; a successful rewrite has as many lines as the input |
| AlnRewrite.TooFewRowsFails | polish2aretomo3.py:210 | when more lines advance `row_index` than there are parsed rows, the rewrite raises |
| AlnRewrite.RewriteErrorIsRowIndex | polish2aretomo3.py:204-223 | when every matched projection index is in range and the pixel size is not zero, a rewrite that raises raises `IndexError` on `aln_rows[row_index]`, past the parsed rows |
| AlnRewrite.AsWrittenFailsOnShortLine | polish2aretomo3.py:206-210 | as written, a file containing a data line with fewer than ten fields cannot be rewritten with the rows its own reader returned |
| AlnRewrite.ShortLineCounterexample | polish2aretomo3.py:206-210 | a ten-field row followed by a shorter numbered row: as written, the rewrite raises `IndexError` at row index 1 even with an empty dictionary; corrected, both lines are copied |
| AlnRewrite.RewritesAgree | polish2aretomo3.py:204-232 | without short data lines, the as-written and the corrected rewrite are the same function |
| AlnRewrite.WriteUpdatedAlnFixed | polish2aretomo3.py:204-232 | corrected: `row_index` advances only on the reader's row lines; a successful rewrite has as many lines as the input |
| AlnRewrite.FixedLineOutput | polish2aretomo3.py:204-232 | with the reader's rows, a line that is not a row line is copied, and row line k reads the row parsed from it, numbered by the row lines before it |
| AlnRewrite.FixedRewriteSucceeds | polish2aretomo3.py:210-223 | the corrected rewrite of a parsed file succeeds exactly when every matched row's projection index is in range and the pixel size is not zero |
| AlnRewrite.FixedRewriteOutput | polish2aretomo3.py:204-232 | the corrected rewrite of a parsed file keeps line count and order; it copies every line that is not a matched row (headers, short data lines, unmatched rows), and writes each matched row from its updated values |
| SeriesFilter.JoinSplit | polish2aretomo3.py:504 | round trip: joining the pieces of `s.split(",")` with commas gives `s` back |
| SeriesFilter.SplitJoin | polish2aretomo3.py:504 | round trip: comma-free pieces joined with commas split back into the same pieces |
| SeriesFilter.StripIsMiddle | polish2aretomo3.py:504 | `p.strip()` is the middle of `p`, between a run of leading and a run of trailing whitespace |
| SeriesFilter.StripFixed | polish2aretomo3.py:504 | `p.strip() == p` exactly when `p` is empty or starts and ends with non-whitespace |
| SeriesFilter.ParsePatterns | polish2aretomo3.py:504-505 | the pattern list is empty exactly when the option is absent or empty; otherwise entry k is the k-th piece of `value.split(",")` stripped, one entry per piece, each free of commas and of edge whitespace |
| SeriesFilter.PatternsRoundTrip | polish2aretomo3.py:504-505 | round trip: patterns without commas and without edge whitespace, written comma-separated (a non-empty value), parse back into exactly themselves |
| SeriesFilter.AnyMatchIff | polish2aretomo3.py:513 | `any(fnmatch(stem, p) for p in pats)` holds exactly when some pattern matches |
| SeriesFilter.KeepIff | polish2aretomo3.py:512-517 | a stem is kept exactly when the include list is empty or one of its patterns matches, and no exclude pattern matches; exclusion wins on overlap |
| SeriesFilter.FilterKeepsAll | polish2aretomo3.py:510-517 | a stem is in the filtered list exactly when it was discovered and is kept |
| SeriesFilter.FilterAppend | polish2aretomo3.py:510-517 | filtering distributes over concatenation, so survivors keep their discovery order |
| SeriesFilter.FilterIdempotent | polish2aretomo3.py:510-517 | filtering a filtered list changes nothing |
| SeriesFilter.NoPatternsKeepsAll | polish2aretomo3.py:510-517 | with neither list given, every discovered stem survives, in order |
| SeriesFilter.FilterSeries | polish2aretomo3.py:510-517 | the loop builds exactly the reference filter, holding exactly the kept discovered stems |
| SeriesFilter.SelectSeries | polish2aretomo3.py:510-520 | selection fails exactly when the filter keeps no stem, and otherwise selects the filtered stems in discovery order |
| SeriesFilter.SelectedAreKept | polish2aretomo3.py:510-520 | selection succeeds exactly when some discovered stem passes the include/exclude tests, and then holds exactly the discovered stems that pass |
| SeriesFilter.SelectWithoutOptions | polish2aretomo3.py:503-520 | without `--include` and `--exclude`, the run stops when nothing was discovered and otherwise selects every stem |
| Pipeline.UpdateSeries | polish2aretomo3.py:528-562 | a series without a STAR file is skipped; an updated series has as many output lines as its `.aln` file; every exception is a read or rewrite error naming the series |
| Pipeline.UpdateSeriesReadErrors | polish2aretomo3.py:534-536 | an unreadable `.aln` file, then an unreadable STAR table, ends the run with that error, naming the series; this holds for either rewrite |
| Pipeline.UpdateSeriesAfterReading | polish2aretomo3.py:538-562 | once both files are read, the series ends as the tilt matching and the chosen rewrite end (`write_updated_aln` as written when `fixed` is false), and a rewrite error names the series |
| Pipeline.UpdateParsedOutcome | polish2aretomo3.py:538-562 | a read series is skipped exactly when there are no projections or more projections than rows; otherwise, on a file without short data lines or with the corrected rewrite, it is updated exactly when the pixel size is not zero, every projection is used, unmatched lines are copied and each matched row line is replaced by its updated row |
| Pipeline.UpdateSeriesShortLineFails | polish2aretomo3.py:544-560 | as written, a read series with a tilt matching whose `.aln` file holds a data line of fewer than ten fields ends the run with a rewrite error naming it, `IndexError` on `aln_rows[row_index]` when the pixel size is not zero; the corrected rewrite updates the same series |
| Pipeline.UpdateAllIff | polish2aretomo3.py:528-563 | the loop completes exactly when no series raises, and then reports exactly the updated series, each with its written lines |
| Pipeline.UpdateAllFirstError | polish2aretomo3.py:528-562 | a stopped loop reports the error of the first series that raised |
| Pipeline.Run | polish2aretomo3.py:519-566 | a successful run reports at least one and at most as many series as were discovered |
| Pipeline.RunReportsSelected | polish2aretomo3.py:503-566 | a successful run reports exactly the series that were discovered, passed the include/exclude test, and were updated from their own files, each with the lines written for it |
| Pipeline.RunSelectsNothing | polish2aretomo3.py:510-520 | the run stops for want of a series exactly when no discovered stem passes the include/exclude test |
| Pipeline.RunFirstError | polish2aretomo3.py:528-562 | a run stopped by an exception reports the error of the first selected series that raised, every series selected before it having been handled |

## Left out

- Directory globbing in `discover_tilt_series` (polish2aretomo3.py:52-59) is left out, along with
  `read_text`, `write_text`, `mkdir` and `chmod`. These are file-system plumbing. Discovered stems
  and file contents are inputs, and written files are outputs.
- `starfile.read` and the dict/DataFrame handling (polish2aretomo3.py:94-102) are left out, because
  the library is foreign code. The table arrives as labels and numeric rows. `float(row[col])` on
  a cell is taken as the identity.
- `generate_slurm_script` (polish2aretomo3.py:238-363) is left out, because it is string
  templating. The run returns the updated series instead.
- `argparse` and console output (polish2aretomo3.py:367-501, 519-598) are left out. The choice of
  `polish_dir` and the STAR path (526-530) become the `hasStar` input. The two `SystemExit`s
  become `NoSeriesSelected` and `NothingUpdated`.
- `float()` is the parameter `parseReal`, because IEEE parsing is out of scope. `int()` of the
  first field is modelled, on ASCII digits only.
- The row f-string (polish2aretomo3.py:226-231) is the parameter `formatRow`, because widths and
  rounding are out of scope.
- `fnmatch.fnmatch` is the parameter `glob` / `matches`, because its glob semantics are out of scope.
- `\d` and `str.lower` are modelled on ASCII only. Python also accepts other Unicode decimal digits
  and lowercases non-ASCII letters. `\s`, `split()` and `strip()` use the full `str.isspace` set.
- CPython's limit on `int()` of a decimal string is not modelled. Since the 2022 security releases,
  a string of more than 4300 digits raises `ValueError`. `sec` is read as the digit run's value
  whatever its length, so a data line starting with 4301 or more digits reads in the model but
  raises in the program.
- Pipeline: the stem an error names is the `stem` field of the record `read` returns for a series.
  That `read(s)` carries `s` itself is how the files are looked up, by stem, in `main`, and it is
  not stated as a requirement.
- Floating point is left out: angles, shifts and DP costs are exact reals. Ties in the DP
  (polish2aretomo3.py:163) are therefore exact ties.
- No angle tolerance is modelled, because the code has none. `match_tilts` (polish2aretomo3.py:130-181) always matches every
  projection when there are enough alignment tilts, however far apart the angles are.
- Nothing in `main` catches an exception (polish2aretomo3.py:528-562), so the first failing series
  ends the whole run. The `.aln` files already written for earlier series are not modelled.
- `parse_aln_file` also returns the file's lines unchanged. The model does not re-return them:
  the loop uses the input lines directly.
- TiltMatch.MatchSpecOptimal: optimality is stated over the stable sorted orders the code builds,
  not over arbitrary orderings of equal angles.
- Pipeline.Run: requires every STAR table to be rectangular, as a data frame always is.

## Findings

| source | as written | input that shows it | evidently intended | confidence | as-written member | corrected member |
|---|---|---|---|---|---|---|
| polish2aretomo3.py:206-210 | `write_updated_aln` advances `row_index` on every line matching `^\s*\d+\s+`. `parse_aln_file` (lines 72-73) makes rows only of those lines with at least ten fields. | A ten-field tilt row followed by a numbered row of fewer than ten fields, e.g. AreTomo3's seven-field local-alignment rows. `aln_rows` has one row, and the second line indexes `aln_rows[1]`, which raises `IndexError` even when nothing is matched. | Advance `row_index` only on the lines the reader turned into rows, and copy shorter data lines verbatim like headers. | not executed | AlnRewrite.AsWrittenFailsOnShortLine | AlnRewrite.FixedRewriteOutput |

The whole as-written rewrite is `AlnRewrite.WriteUpdatedAln`. `AlnRewrite.AsWrittenFailsOnShortLine`
shows that it fails on every file with such a line, using the rows the reader returned for that
file. `AlnRewrite.ShortLineCounterexample` builds the two-line input of the table and proves two
things: the as-written rewrite raises at row index 1, and the corrected one copies both lines.
The corrected rewrite is `AlnRewrite.WriteUpdatedAlnFixed`. `Pipeline` takes a flag `fixed`:
`false` runs the per-series loop with the as-written rewrite, as `main` does, and `true` with the
corrected one. `Pipeline.UpdateSeriesShortLineFails` shows that, as written, a series with such a
line ends the run, while the corrected loop updates it.
`AlnRewrite.RewritesAgree` shows that the two coincide on files without short data lines.
