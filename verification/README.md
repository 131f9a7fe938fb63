# Spike-in normalisation of ChIP-seq libraries, in Dafny

A model of `scripts/chip_spikein_norm.py`, the script that turns samtools read
counts into per-library spike-in normalisation factors (alpha) for ChIP-seq.
Each of 16 libraries has reads aligned to the experimental genome
(S. cerevisiae, "scer") and to the spike-in genome (S. pombe, "spom"). The
script:

1. pairs the two samtools logs into a table (record k: name on line 2k of
   `rep4_counts.log`, counts on line 2k+1 of each log) — `CountLogs`, with
   Python's `str.strip` and `int()` in `PyText`;
2. adds the columns `total_counts`, `proportion_spom` and `proportion_scer`
   — `Proportions`;
3. computes `norm = scer / spom` for every input library and, block by block
   (rows 0-3, 4-7, 8-11, 12-15, tagged `93_D`, `93_I`, `95_D`, `95_I`), sets
   `alpha_i = 1 / (spom_i * norm[4b+2])` — `Alpha`;
4. formats every alpha and exports `(library, alpha)` rows in table order
   with no header and no index — `Export`.

Counts are unbounded integers and every ratio is an exact `real`. The
imperative parts of the script are methods proved against specification
functions: the reading loop `CountLogs.ReadRecords` against `PairPrefix`
(and `CountLogs.ReadCounts`, the loop run for 16 records, against
`PairLogs`); the block assignments into the `alpha_IP` column
(`Alpha.AssignBlock`, `Alpha.AssignAlpha`, over an `array<real>`) against
`RowAlpha` and `AlphaColumn`; the formatting loop `Export.FormatAlpha` cell by
cell against the `format` parameter; and the whole script
`Export.NormalizationTable` against `NormalizationSpec`, which exports with
`ExportRows`. The properties are lemmas about those functions. Failures the script raises are
`Records.Failure` values: a missing log line (IndexError), a count line that
is not an integer (ValueError), a block whose row 4b+2 is not an input row
(KeyError on `norm[4b+2]`).

Files: `wrappers.dfy`, `pytext.dfy`, `records.dfy`, `count_logs.dfy`,
`proportions.dfy`, `alpha.dfy`, `export.dfy`.

## Model

| member | source | states |
|---|---|---|
| PyText.Strip | scripts/chip_spikein_norm.py:31 | `s.strip(chars)`: drops the characters of the set from the right end, then from the left end (characterised by `StripIsSlice` and `StripPadded`) |
| PyText.StripIsSlice | scripts/chip_spikein_norm.py:31 | `strip` keeps a contiguous slice of the line and removes only stripped characters on either side |
| PyText.StripPadded | scripts/chip_spikein_norm.py:31 | `strip` is determined by its result: padding a string whose ends are kept with stripped characters strips back to it |
| PyText.StripNewlinesOfLine | scripts/chip_spikein_norm.py:31 | a line `text + "\n"` is read back as `text` when `text` has no newline at either end |
| PyText.StripNewlines | scripts/chip_spikein_norm.py:31-32 | `line.strip('\n')`, applied to every line read |
| PyText.ParseDigitsSpec | scripts/chip_spikein_norm.py:32 | the digit reader behind `int()` accepts exactly the digit strings (single `_` between digits allowed) and returns their decimal value |
| PyText.ParseInt | scripts/chip_spikein_norm.py:32 | `int(s)`: strips the characters `int()` ignores (ASCII tab, line feed, vertical tab, form feed, carriage return, space, and the non-ASCII `isspace` characters), then one optional sign and grouped digits; anything else is a failure (characterised by `ParseDigitsSpec`, `ParseIntOfShow`, `ParseIntRejects`, `ParseIntRejectsSeparator`) |
| PyText.ParseCount | scripts/chip_spikein_norm.py:32 | `int(content[i+1].strip('\n'))`, the reading of a count line in either log (lines 32 and 37) |
| PyText.ParseIntOfShow | scripts/chip_spikein_norm.py:32 | `int(str(n)) == n` for every integer n |
| PyText.ParseCountOfLine | scripts/chip_spikein_norm.py:32 | a count line `str(n) + "\n"` is read as n |
| PyText.ParseIntRejects | scripts/chip_spikein_norm.py:32 | a line with a character that `int()` does not ignore and that is no digit, sign or underscore is not an integer: `int()` raises |
| PyText.ParseIntRejectsSeparator | scripts/chip_spikein_norm.py:32 | a count preceded by one of the ASCII separators U+001C..U+001F is not an integer: `int()` raises although `str.isspace` accepts the separator |
| PyText.Contains | scripts/chip_spikein_norm.py:84-88 | `sub in s`, the test behind `str.contains` with the plain patterns of lines 84-88 (characterised by `ContainsAt`) |
| PyText.ContainsAt | scripts/chip_spikein_norm.py:84 | the substring test used by the name filters holds exactly when the pattern occurs at some position |
| CountLogs.ReadRecord | scripts/chip_spikein_norm.py:27-37 | one turn of the loop: the failure of the first missing line or non-integer, in the order lines 31, 32 and 37 meet them, else the record (characterised by `ReadRecordSpec` and `ReadRecordFailure`) |
| CountLogs.PairLogs | scripts/chip_spikein_norm.py:27-38 | the 16 turns in order, stopping at the first failure (characterised by `PairLogsSpec`, `PairLogsFailure` and `PairPrefixFirstFailure`) |
| CountLogs.Zip | scripts/chip_spikein_norm.py:45-51 | the data frame has one row per list entry, row i made of the i-th name and the i-th counts |
| CountLogs.ReadLibrary | scripts/chip_spikein_norm.py:27-37 | one turn of the loop reads the name line, then the experimental and the spike-in count line, failing on the first missing line or non-integer, as `ReadRecord` says |
| CountLogs.ReadRecords | scripts/chip_spikein_norm.py:22-38 | the reading loop over the first n records, appending to the three lists, yields exactly `PairPrefix` (the n records, or the first failure in reading order) |
| CountLogs.ReadCounts | scripts/chip_spikein_norm.py:27 | the loop as written, `range(0, 32, 2)`, yields exactly `PairLogs`, the 16-record table or the first failure |
| CountLogs.PairPrefixSpec | scripts/chip_spikein_norm.py:27-37 | the first n records are read iff lines 1, 3, ..., 2n-1 of both logs exist and hold integers; record k then comes from lines 2k and 2k+1 |
| CountLogs.PairLogsSpec | scripts/chip_spikein_norm.py:27-37 | the logs yield a table iff both logs have lines 1, 3, ..., 31 holding integers; the table then has 16 records in log order, record k = (strip of line 2k of the experimental log, integer of line 2k+1 of each log) |
| CountLogs.ReadRecordFailure | scripts/chip_spikein_norm.py:31-37 | a failing turn k fails on line 2k or 2k+1, a fault in the spike-in log comes only after the experimental count line of that turn was read as an integer, and when the experimental log reaches line 2k a missing experimental line is the one just past its end |
| CountLogs.PairPrefixFirstFailure | scripts/chip_spikein_norm.py:27-37 | the failure of the first n turns is the first the loop meets: every record before its line is readable, a spike-in fault follows a readable experimental count line, and a missing experimental line is line `len(content)`, the first past the end of that log |
| CountLogs.PairLogsFailure | scripts/chip_spikein_norm.py:27-37 | a failed read names a real fault and the first one: a line index below 32 past the end of its log, or an odd line of that log that `int()` rejects; every record before it is readable, a spike-in fault follows a readable experimental count line of the same turn, and a missing experimental line is line `len(content)`, the first past the end of that log |
| CountLogs.NamesFromExperimentalLog | scripts/chip_spikein_norm.py:31-37 | library names come from the experimental log only; the spike-in log's name lines never matter |
| CountLogs.ReadRenderedLogs | scripts/chip_spikein_norm.py:27-37 | round trip: reading the two logs written (name line, count line) for 16 libraries gives back exactly those libraries in order |
| Proportions.TotalCounts | scripts/chip_spikein_norm.py:57 | `total_counts = spom_counts + scer_counts` for one row |
| Proportions.RowShares | scripts/chip_spikein_norm.py:57-60 | total = spom + scer, and each proportion times the total is that genome's count |
| Proportions.DeriveColumns | scripts/chip_spikein_norm.py:57-60 | the derived columns have one entry per row, in row order |
| Proportions.SharesSumToOne | scripts/chip_spikein_norm.py:59-60 | `proportion_spom + proportion_scer == 1` on every row |
| Proportions.SharesInUnitInterval | scripts/chip_spikein_norm.py:59-68 | with nonnegative counts both proportions lie in [0, 1], the plot's axis range |
| Alpha.NormSeries | scripts/chip_spikein_norm.py:84 | `norm` has a label exactly for the input rows, and `norm[i] * spom_i == scer_i` |
| Alpha.AlphaOf | scripts/chip_spikein_norm.py:85-88 | the expression `1 / (spom_counts * norm[ref])` for one row |
| Alpha.RowAlpha | scripts/chip_spikein_norm.py:85-88 | the alpha of row i: `AlphaOf` of its spike-in count and the `norm` entry of its block's row 4b+2 (closed form in `AlphaClosedForm`) |
| Alpha.TaggedAlphas | scripts/chip_spikein_norm.py:85-88 | the right-hand side of one block line: a series whose labels are exactly the rows whose name holds the tag, each holding `1 / (spom_i * n)` |
| Alpha.TaggedBlock | scripts/chip_spikein_norm.py:85-88 | when each of the 16 rows carries its own block's tag (`TagsMatch`), block b's series read at labels 4b..4b+3 (the `.loc` alignment) is exactly the block's alphas |
| Alpha.AlphaColumn | scripts/chip_spikein_norm.py:84-88 | the alpha column, when computed, has one entry per row |
| Alpha.AlphaSpec | scripts/chip_spikein_norm.py:84-88 | alpha is computed iff rows 2, 6, 10, 14 are input rows; each row then gets the alpha of its own block's reference; otherwise the run stops at the first block whose row 4b+2 is not an input row |
| Alpha.AlphaClosedForm | scripts/chip_spikein_norm.py:79-85 | alpha_i = spom_ref / (spom_i * scer_ref), ref = 4b+2 of row i's block |
| Alpha.ReferenceAlpha | scripts/chip_spikein_norm.py:85-88 | the reference row's own alpha is 1 / scer_ref |
| Alpha.AlphaTimesSpikeIsBlockConstant | scripts/chip_spikein_norm.py:85-88 | alpha_i * spom_i = spom_ref / scer_ref, the same for every row of a block |
| Alpha.AlphaDecreasesWithSpike | scripts/chip_spikein_norm.py:85-88 | within a block (positive reference counts), a row with more spike-in reads gets a strictly smaller positive alpha |
| Alpha.AlphaDependsOnlyOnReference | scripts/chip_spikein_norm.py:85-88 | a row's alpha depends on its own spike-in count and its block's reference row, on nothing else in the table |
| Alpha.AssignBlock | scripts/chip_spikein_norm.py:85 | one `.loc[4b:4b+3, 'alpha_IP']` assignment: fails (nothing written) iff row 4b+2 is not an input row, else writes the block's alphas and leaves other rows unchanged |
| Alpha.AssignAlpha | scripts/chip_spikein_norm.py:84-88 | the four block assignments leave the column equal to `AlphaColumn`, or report its failure |
| Export.FormatAlpha | scripts/chip_spikein_norm.py:91-92 | the formatted column has one cell per alpha, cell i = format(alpha_i) |
| Export.ExportRows | scripts/chip_spikein_norm.py:99 | one (library, formatted alpha) row per record, in record order, nothing else |
| Export.NormalizationSpec | scripts/chip_spikein_norm.py:27-99 | the table the script writes, or the failure that stops it: `PairLogs`, then `AlphaColumn`, then `format` and `ExportRows` (characterised by `NormalizationRows` and `NormalizationFails`) |
| Export.NormalizationTable | scripts/chip_spikein_norm.py:23-99 | the script end to end (without plotting) computes `NormalizationSpec` |
| Export.NormalizationRows | scripts/chip_spikein_norm.py:27-99 | the exported table has 16 rows in log order; row k = (name from line 2k of the experimental log, format of library k's alpha from its block reference) |
| Export.NormalizationFails | scripts/chip_spikein_norm.py:27-88 | the script fails exactly when the logs cannot be read or some block's row 4b+2 is not an input row |

## Left out

- `os.chdir` (line 10), the line count and `print` of `experimental_counts.log` (lines 16-19): environment and output side effects.
- Opening, reading and closing the logs (lines 28-30, 34-36): a log is given as the list `readlines()` returns; a missing file is not modelled. Writing the CSV file (line 99) is modelled as the returned list of rows.
- The bar plot (lines 65-74): visualisation only; its data are the derived columns of `Proportions`.
- `format(x, '.16f')` (line 92): IEEE float printing; it is the `format` parameter of `Export.FormatAlpha`.
- Floating point: every ratio is an exact `real`; int64 overflow of pandas columns is not modelled.
- NaN and inf: a row of block b without its tag (the series of its line then lacks that label and pandas writes NaN) is excluded by the precondition `Alpha.TagsMatch`; rows of other blocks that carry the tag are in the series but ignored by the alignment, as in pandas; a zero spike-in count and a zero S. cerevisiae count on a reference input row are excluded by the precondition `Alpha.AlphaReady`; a zero total is excluded by the preconditions of `Proportions`.
- ParseDigitsSpec: accepts digit strings of any length; CPython (3.11 and the 2022 security releases) raises ValueError on a decimal string of more than 4300 digits, a limit read counts never approach.
- ParseIntOfShow: holds for every integer, while `int(str(n))` raises in CPython for |n| of 10^4300 or more under the default digit limit; read counts never approach it.
- ParseCountOfLine: a count line of more than 4300 digits would make the script raise; the digit limit is not modelled.
- ParseInt: reads only ASCII digits `0`-`9`; CPython's `int()` also accepts the other Unicode decimal digits (`int("\u0663") == 3`), which the model reports as not an integer. It also has no 4300-digit limit (see ParseDigitsSpec).
- ParseCount: has both gaps of ParseInt: non-ASCII decimal digits are read as a failure, and count lines over the 4300-digit limit are read as numbers.
- ParseIntRejects: its premise "no digit" means no ASCII digit, so for a non-ASCII decimal digit it promises a failure where CPython reads a number; the lemma holds of the model only.
- `Series.str.contains` interprets its pattern as a regular expression; the patterns used (`input`, `93_D`, `93_I`, `95_D`, `95_I`) have no special characters, so it is modelled as a substring test.
- The contents of the `alpha_IP` column after a failed lookup: the run stops there, so `Alpha.AssignAlpha` only reports the failure.
- The bare expressions used for inspection (lines 40-42, 53-54, 95): they have no effect.
- Alpha.NormSeries: requires a nonzero spike-in count on every input row, where pandas would put inf in an entry that is never read.
- Alpha.AssignAlpha: requires every row's spike-in count to be nonzero even when the run stops on a missing reference before reaching that row's block.
