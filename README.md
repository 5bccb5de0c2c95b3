# PRL tender price cleaning, modelled in Dafny

This project models the cleaning of Swissgrid primary-control (PRL) tender
results, as `data/Swissgrid_PRL_SRL_TRL/PRL.py` performs it for one year.
It proves properties of that model.

The script works on a table of tender results. Each row has:
- a description (`Beschreibung`);
- a country (`Land`);
- a tender id (`Ausschreibung`);
- a price (`Preis`).

For each year it:

1. keeps the rows whose description contains "Primary control" (ignoring
   case) and whose country, stripped and upper-cased, is `CH`;
2. keeps a row only when `Preis.diff() != 0`. The first row is always kept,
   and so is every row whose own price, or the previous row's, is missing;
3. keeps only the id and price columns;
4. numbers the rows of each tender id in a loop over a `block_counts`
   dictionary, turning id `v` into `v_k` for its k-th row;
5. builds, in a nested loop, the list of expected block ids
   `PRL_<yy>_<mm>_<dd>_<b>`: one per calendar day of the year and per block
   1 to 6, using the Gregorian leap-year rule;
6. left-merges the numbered rows onto the expected ids and forward-fills the
   price column;
7. reports how many blocks were missing before the fill and how many rows
   still have no price after it.

The model has one module per stage:
- `TenderRows` covers steps 1-3.
- `BlockNumbering` covers step 4.
- `ExpectedBlocks` covers step 5, supported by `Calendar` (day of the year to
  month and day) and `Text` (decimal rendering, zero padding, tags).
- `MergeFill` covers step 6.
- `MissingCounts` covers step 7.
- `PrlCleaning` chains them for one year.

The two loops of the script are methods:
- `NumberBlocks` holds the dictionary as a `map`.
- `BuildExpected` is the nested day/block loop.

Each of them is proved against a specification function, whose properties are
proved as lemmas. The whole-column operations are functions: the filters, the
merge and the fill.

Prices are exact numbers (`real`), and an empty cell is `None`.

Two behaviours of the script carry over into the model unchanged:
- The price-change filter compares each row with the row before it, whatever
  tender that row belongs to.
- The numbering counts the rows that survive the filter, not the blocks they
  came from. When two neighbouring blocks of a day clear at the same price,
  the later one is dropped, and the blocks after it receive smaller numbers
  than their position in the day.

## Model

| member | source | states |
|---|---|---|
| Text.Decimal | data/Swissgrid_PRL_SRL_TRL/PRL.py:21 | Rendering of a natural number: digits only. It has one digit exactly below ten, no leading zero except for 0, and ends in the last decimal digit. |
| Text.DecimalRoundTrip | data/Swissgrid_PRL_SRL_TRL/PRL.py:21 | Reading the rendered digits back gives the number. |
| Text.DecimalInjective | data/Swissgrid_PRL_SRL_TRL/PRL.py:21 | Different numbers render differently. |
| Text.Pad2 | data/Swissgrid_PRL_SRL_TRL/PRL.py:35 | `:02d` below 100: exactly two digits, which read back as the number. |
| Text.Pad2IsPaddedDecimal | data/Swissgrid_PRL_SRL_TRL/PRL.py:35 | Zero padding adds a leading 0 below ten and is plain decimal from ten on. |
| Text.Pad2Injective | data/Swissgrid_PRL_SRL_TRL/PRL.py:35 | Different months or days pad differently. |
| Text.YearSuffix | data/Swissgrid_PRL_SRL_TRL/PRL.py:35 | `str(year)[-2:]`: one or two digits, two exactly from year 10 on, and a one-digit year kept as it is. |
| Text.YearSuffixIsTwoDigitYear | data/Swissgrid_PRL_SRL_TRL/PRL.py:35 | `str(year)[-2:]` is the two-digit year of the century, for every year from 10 on. |
| Text.BlockTag | data/Swissgrid_PRL_SRL_TRL/PRL.py:21 | `f"{val}_{k}"` starts with `val`, then an underscore, then exactly the decimal rendering of `k` (no leading zeros), whose digits read back as `k`. |
| Text.SplitAtLastSeparator | data/Swissgrid_PRL_SRL_TRL/PRL.py:21 | A string ending in a separator and a separator-free tail splits only at its last separator. |
| Text.BlockTagInjective | data/Swissgrid_PRL_SRL_TRL/PRL.py:21 | `f"{val}_{k}"` determines both `val` and `k`. |
| Text.LeadingSpaces | data/Swissgrid_PRL_SRL_TRL/PRL.py:10 | Counts the maximal run of Python whitespace at the start. |
| Text.TrailingSpaces | data/Swissgrid_PRL_SRL_TRL/PRL.py:10 | Counts the maximal run of Python whitespace at the end. |
| Text.Strip | data/Swissgrid_PRL_SRL_TRL/PRL.py:10 | `strip()` is no longer than its input, and is empty exactly when the input is all whitespace. |
| Text.StripShape | data/Swissgrid_PRL_SRL_TRL/PRL.py:10 | `strip()` returns the slice between the leading and trailing whitespace. Everything cut is whitespace, and the result neither starts nor ends with whitespace. |
| Text.StripSlice | data/Swissgrid_PRL_SRL_TRL/PRL.py:10 | The stripped string is the slice of the input after its leading whitespace, and everything after it is whitespace. |
| Text.StripFirst | data/Swissgrid_PRL_SRL_TRL/PRL.py:10 | A non-empty stripped string does not start with whitespace. |
| Text.StripLast | data/Swissgrid_PRL_SRL_TRL/PRL.py:10 | A non-empty stripped string does not end with whitespace. |
| Text.Upper | data/Swissgrid_PRL_SRL_TRL/PRL.py:10 | `upper()` keeps the length and leaves no lower-case ASCII letter. Each character is unchanged or is a lower-case letter replaced by its capital. |
| Text.SearchFrom | data/Swissgrid_PRL_SRL_TRL/PRL.py:9 | True exactly when the pattern occurs, ignoring case, at some position from `i` on. |
| Text.ContainsIgnoringCase | data/Swissgrid_PRL_SRL_TRL/PRL.py:9 | `str.contains(pat, case=False)` is true exactly when the pattern occurs somewhere, ignoring case. |
| Calendar.IsLeapYear | data/Swissgrid_PRL_SRL_TRL/PRL.py:31 | `is_leap_year`: a leap year is divisible by four; a year divisible by four but not by 100 is one; a century year is one exactly when divisible by 400. |
| Calendar.MonthsFillYear | data/Swissgrid_PRL_SRL_TRL/PRL.py:31 | The twelve month lengths add up to 366 in a Gregorian leap year and 365 otherwise. |
| Calendar.DaysInYear | data/Swissgrid_PRL_SRL_TRL/PRL.py:31 | `days_in_year` is 365 or 366, 366 exactly in a leap year, and equals the twelve month lengths added up. |
| Calendar.DaysBeforeGrows | data/Swissgrid_PRL_SRL_TRL/PRL.py:33 | A later month starts after the whole of an earlier month. |
| Calendar.FindMonth | data/Swissgrid_PRL_SRL_TRL/PRL.py:33 | Finds the month whose days contain the given day of the year. |
| Calendar.DateOfDay | data/Swissgrid_PRL_SRL_TRL/PRL.py:33 | `1 January + (day - 1) days` is a valid date, and that date is the `day`-th day of the year. |
| Calendar.DayOfYearOrder | data/Swissgrid_PRL_SRL_TRL/PRL.py:33 | Day-of-year order is calendar order, in both directions. |
| Calendar.DateRoundTrip | data/Swissgrid_PRL_SRL_TRL/PRL.py:33 | Every valid date is reached by exactly its own day of the year. |
| Calendar.DateOfDayMonotone | data/Swissgrid_PRL_SRL_TRL/PRL.py:32-33 | Later days of the loop give later dates. |
| TenderRows.IsPrimaryControl | data/Swissgrid_PRL_SRL_TRL/PRL.py:9 | The description is present and contains "Primary control" at some position, ignoring case; an empty cell is never selected. |
| TenderRows.IsSwiss | data/Swissgrid_PRL_SRL_TRL/PRL.py:10 | The country is present and, stripped, is exactly two characters: a C and an H, each in either case. |
| TenderRows.Select | data/Swissgrid_PRL_SRL_TRL/PRL.py:9-10 | The kept rows are exactly the selected rows, with their multiplicities, and no others. |
| TenderRows.SelectedIndices | data/Swissgrid_PRL_SRL_TRL/PRL.py:9-10 | The indices of the selected rows, increasing, holding exactly the indices whose row passes both selections. |
| TenderRows.SelectInOrder | data/Swissgrid_PRL_SRL_TRL/PRL.py:9-10 | Boolean indexing keeps the input order: the selected table is the input rows at the increasing selected indices. |
| TenderRows.PriceChanged | data/Swissgrid_PRL_SRL_TRL/PRL.py:11 | `diff() != 0` holds for the first row and whenever this or the previous price is missing; between two present prices it holds exactly when they differ. |
| TenderRows.ChangeIndices | data/Swissgrid_PRL_SRL_TRL/PRL.py:11 | The surviving indices are increasing, and an index is among them exactly when `diff() != 0` holds there. |
| TenderRows.ChangeFilter | data/Swissgrid_PRL_SRL_TRL/PRL.py:11 | The filter keeps at most all rows, and only rows of its input. |
| TenderRows.ChangeFilterRows | data/Swissgrid_PRL_SRL_TRL/PRL.py:11 | A row is kept exactly when it is a row at which the price changed. |
| TenderRows.ChangeFilterKeepsFirst | data/Swissgrid_PRL_SRL_TRL/PRL.py:11 | The first row always survives. |
| TenderRows.UnchangedRun | data/Swissgrid_PRL_SRL_TRL/PRL.py:11 | Rows dropped after a surviving row carry its price. |
| TenderRows.NoRepeatedPriceAfterFilter | data/Swissgrid_PRL_SRL_TRL/PRL.py:11 | No two adjacent surviving rows carry the same present price. |
| TenderRows.ChangeIndicesAll | data/Swissgrid_PRL_SRL_TRL/PRL.py:11 | When every row differs from its predecessor, every index survives. |
| TenderRows.ChangeFilterIdempotent | data/Swissgrid_PRL_SRL_TRL/PRL.py:11 | Filtering again changes nothing. |
| TenderRows.Project | data/Swissgrid_PRL_SRL_TRL/PRL.py:12 | Keeps every row, in order, with only its id and its price. |
| BlockNumbering.Occurrence | data/Swissgrid_PRL_SRL_TRL/PRL.py:17-21 | The suffix of row `i` counts the rows up to `i` with its id, and lies between 1 and `i + 1`. |
| BlockNumbering.TallyStep | data/Swissgrid_PRL_SRL_TRL/PRL.py:17-20 | One loop step adds one to the row's count, starting from 1 for a new id, and the new count is that row's occurrence number. |
| BlockNumbering.NumberedStep | data/Swissgrid_PRL_SRL_TRL/PRL.py:21 | Appending to `new_ids` extends the numbered prefix by one row. |
| BlockNumbering.NumberBlocks | data/Swissgrid_PRL_SRL_TRL/PRL.py:14-21 | `new_ids` has one entry per row, in order, with entry `i` equal to `val_i + "_" + k_i`. `block_counts` has exactly the ids seen as keys, each mapped to its number of rows. |
| BlockNumbering.OccurrenceGrows | data/Swissgrid_PRL_SRL_TRL/PRL.py:17-20 | A later row with the same id gets a larger suffix. |
| BlockNumbering.NumberedIdsDistinct | data/Swissgrid_PRL_SRL_TRL/PRL.py:14-22 | All numbered ids are pairwise distinct. |
| BlockNumbering.SuffixesAreConsecutive | data/Swissgrid_PRL_SRL_TRL/PRL.py:14-21 | The suffixes of one id run 1, 2, … up to its number of rows, without gaps. |
| ExpectedBlocks.BlockIdFields | data/Swissgrid_PRL_SRL_TRL/PRL.py:33-35 | The id of block `b` of day `d` is `PRL_`, the year suffix and underscore-separated fields whose digits read back as the month and day of that date and as `b`. |
| ExpectedBlocks.IdLayout | data/Swissgrid_PRL_SRL_TRL/PRL.py:35 | In a string laid out like a block id, each field sits at a fixed offset after the year suffix, separated by underscores. |
| ExpectedBlocks.ExpectedIds | data/Swissgrid_PRL_SRL_TRL/PRL.py:30-35 | The expected list has six ids for every day of the year. |
| ExpectedBlocks.ExpectedIdsLayout | data/Swissgrid_PRL_SRL_TRL/PRL.py:30-35 | The expected list has 6 × 366 entries in a leap year and 6 × 365 otherwise. The id of block `b` of day `d` sits at position `6(d-1) + (b-1)`. |
| ExpectedBlocks.BuildExpected | data/Swissgrid_PRL_SRL_TRL/PRL.py:30-35 | The nested loop produces exactly the expected list. |
| ExpectedBlocks.DayIdsStep | data/Swissgrid_PRL_SRL_TRL/PRL.py:34-35 | The inner loop appends the day's block ids one by one; six of them complete the day. |
| ExpectedBlocks.ExpectedPrefixStep | data/Swissgrid_PRL_SRL_TRL/PRL.py:32-35 | Each outer iteration appends the six ids of its day. |
| ExpectedBlocks.FieldsDetermined | data/Swissgrid_PRL_SRL_TRL/PRL.py:35 | The two-character month, the two-character day and the block after a common prefix are read back unambiguously. |
| ExpectedBlocks.BlockIdInjective | data/Swissgrid_PRL_SRL_TRL/PRL.py:35 | Different (day, block) pairs give different ids. |
| ExpectedBlocks.PositionOf | data/Swissgrid_PRL_SRL_TRL/PRL.py:32-34 | Every position of the list belongs to a (day, block) pair of the loops, which it returns. |
| ExpectedBlocks.ExpectedIdsDistinct | data/Swissgrid_PRL_SRL_TRL/PRL.py:30-35 | The expected list names every block of the year exactly once. |
| ExpectedBlocks.ExpectedOrder | data/Swissgrid_PRL_SRL_TRL/PRL.py:32-35 | One block comes before another exactly when its date is earlier, or its date is the same and its block smaller. |
| MergeFill.Matches | data/Swissgrid_PRL_SRL_TRL/PRL.py:38 | The rows matching a key are exactly the rows with that id, with their multiplicities. |
| MergeFill.MatchesMembers | data/Swissgrid_PRL_SRL_TRL/PRL.py:38 | A row matches a key exactly when it is a row of the right table with that id. |
| MergeFill.MergeRowsShape | data/Swissgrid_PRL_SRL_TRL/PRL.py:38 | The merged rows of one key carry that key, include every right row with it and no other priced row, and are a single unpriced row when no right row has the key. |
| MergeFill.LeftMerge | data/Swissgrid_PRL_SRL_TRL/PRL.py:38 | A left merge has at least as many rows as left keys, and only left keys as ids. |
| MergeFill.LeftMergeRows | data/Swissgrid_PRL_SRL_TRL/PRL.py:38 | Every left key has a row in the merge; every right row with a left key is in it; every priced row of it comes from the right table; a left key no right row carries gets an unpriced row. |
| MergeFill.Lookup | data/Swissgrid_PRL_SRL_TRL/PRL.py:38 | The price of the first row with the key, or none when no row has it. |
| MergeFill.NoMatches | data/Swissgrid_PRL_SRL_TRL/PRL.py:38 | A key no row carries has no matches. |
| MergeFill.MatchesOfUniqueKey | data/Swissgrid_PRL_SRL_TRL/PRL.py:38 | With unique right ids, a key merges into exactly one row: the key with its matched price or with none. |
| MergeFill.MergeOneToOne | data/Swissgrid_PRL_SRL_TRL/PRL.py:38 | With unique right ids, the merge has one row per left key, in left order, carrying that key's matched price. |
| MergeFill.FFill | data/Swissgrid_PRL_SRL_TRL/PRL.py:40 | `ffill()` keeps the length and present values. A missing value takes the filled value before it, and a missing head stays missing. |
| MergeFill.FFillLatest | data/Swissgrid_PRL_SRL_TRL/PRL.py:40 | A filled entry equals the latest present entry at or before it. |
| MergeFill.FFillLeading | data/Swissgrid_PRL_SRL_TRL/PRL.py:40 | A filled entry is missing exactly when no entry up to it was present. |
| MergeFill.FillForward | data/Swissgrid_PRL_SRL_TRL/PRL.py:40 | Filling the table keeps the id column and forward-fills the price column. |
| MissingCounts.CountNone | data/Swissgrid_PRL_SRL_TRL/PRL.py:42 | `isna()` rows counted: the number of times the empty value occurs in the column, at most its length. |
| MissingCounts.FirstSome | data/Swissgrid_PRL_SRL_TRL/PRL.py:42-44 | The index of the first present entry, or the length when there is none. |
| MissingCounts.CountLeadingNone | data/Swissgrid_PRL_SRL_TRL/PRL.py:42 | A column missing exactly its first `f` entries has `f` missing entries. |
| MissingCounts.StillMissingIsLeadingGap | data/Swissgrid_PRL_SRL_TRL/PRL.py:40-44 | After the fill, exactly the entries before the first present one are missing. Their count is that index. |
| MissingCounts.CountUnmatched | data/Swissgrid_PRL_SRL_TRL/PRL.py:43 | The number of expected ids outside a key set: 0 exactly when all are inside, the full length exactly when none is. |
| MissingCounts.MissingBlocks | data/Swissgrid_PRL_SRL_TRL/PRL.py:43 | The number of expected blocks without a row: at most the number of expected blocks, and 0 exactly when every expected id is the id of some row. |
| MissingCounts.MissingReportedAsWritten | data/Swissgrid_PRL_SRL_TRL/PRL.py:43 | The printed difference of row counts never exceeds the number of blocks without a row, when the expected list has no repeats. |
| MissingCounts.MissingReportBound | data/Swissgrid_PRL_SRL_TRL/PRL.py:43 | On a repeat-free expected list, expected count minus row count is at most the number of expected ids no row carries. |
| MissingCounts.KeySetBound | data/Swissgrid_PRL_SRL_TRL/PRL.py:43 | A table has at most as many distinct ids as rows. |
| MissingCounts.KeySetSize | data/Swissgrid_PRL_SRL_TRL/PRL.py:43 | Unique ids give as many distinct keys as rows. |
| MissingCounts.CountUnmatchedComplement | data/Swissgrid_PRL_SRL_TRL/PRL.py:43 | On a repeat-free list, the unmatched count is the length minus the size of the matched part. |
| MissingCounts.MissingReportAgreesWhenContained | data/Swissgrid_PRL_SRL_TRL/PRL.py:43 | When the expected list and the row ids are both free of repeats and every row id is an expected id, the printed difference of row counts is the number of missing blocks. |
| MissingCounts.MissingReportMiscountsOn | data/Swissgrid_PRL_SRL_TRL/PRL.py:14-43 | Three rows of one tender, numbered 1 to 3 by the numbering of l.14-22, against blocks 1 and 2 of that tender and block 1 of another: the printed figure is 0 while one block has no row. |
| MissingCounts.MissingReportMiscounts | data/Swissgrid_PRL_SRL_TRL/PRL.py:43 | The same on the ids of 1 and 2 January 2023: the printed figure is 0 while block 1 of 2 January has no row. |
| MissingCounts.PricesCons | data/Swissgrid_PRL_SRL_TRL/PRL.py:38 | The price column of a table with one more row in front. |
| MissingCounts.LookupFindsKey | data/Swissgrid_PRL_SRL_TRL/PRL.py:38 | With unique, priced rows, a key gets a price exactly when some row carries it. |
| MissingCounts.MissingBlocksAreUnpricedRows | data/Swissgrid_PRL_SRL_TRL/PRL.py:38-43 | With unique, priced rows, the missing blocks are exactly the merged rows without a price before the fill. |
| PrlCleaning.Filtered | data/Swissgrid_PRL_SRL_TRL/PRL.py:9-12 | The filtered, projected table has at most as many rows as the input; each row carries the id and price of a selected input row, and no two neighbours carry the same present price. |
| PrlCleaning.KeptRowsSelected | data/Swissgrid_PRL_SRL_TRL/PRL.py:9-11 | Every row surviving both filters is a selected row of the input. |
| PrlCleaning.ProjectedRowsSelected | data/Swissgrid_PRL_SRL_TRL/PRL.py:9-12 | Every projected row carries the id and price of a selected input row. |
| PrlCleaning.ProjectedPricesChange | data/Swissgrid_PRL_SRL_TRL/PRL.py:11-12 | No two neighbouring projected rows carry the same present price. |
| PrlCleaning.Relabel | data/Swissgrid_PRL_SRL_TRL/PRL.py:22 | Assigning `new_ids` replaces the id column and keeps the price column. |
| PrlCleaning.NumberedRowsDistinct | data/Swissgrid_PRL_SRL_TRL/PRL.py:14-22 | The relabelled table has unique ids, so the merge is one-to-one. |
| PrlCleaning.MatchedPrices | data/Swissgrid_PRL_SRL_TRL/PRL.py:38 | One price per expected id: none when no row carries the id, and, with unique row ids, the price of the row that carries it. |
| PrlCleaning.MergedColumns | data/Swissgrid_PRL_SRL_TRL/PRL.py:38 | The merge on unique ids has the expected ids as its id column and the matched prices as its price column. |
| PrlCleaning.FilledTable | data/Swissgrid_PRL_SRL_TRL/PRL.py:38-44 | The filled table follows the expected ids and carries the forward-filled matched prices. The rows still unpriced are the leading ones before the first matched price, and their count is that index. |
| PrlCleaning.CleanYear | data/Swissgrid_PRL_SRL_TRL/PRL.py:9-44 | The whole year's pass. It states the numbered table with unique ids and the filled table laid out as the expected list with forward-filled matched prices. It returns the printed missing figure, the corrected missing-block count, which is never below it, and the still-missing count as the leading gap. |

## Left out

- Reading and writing the CSV files, the hard-coded paths and the `print` reports (PRL.py l.4-8, 24-28, 43-50). `CleanYear` returns the figure printed at l.43, the corrected missing-block count and the still-missing count instead.
- The loop over the years 2023 and 2024 (l.3). The year is a parameter of `CleanYear`.
- `PRL_AvgMW.py`: pandas group sums and means over floating-point volumes, with no hand-written logic.
- `functions.py`: plotting.
- `Dispatch_Model.py`: a solver stub with no constraints or objective.
- Floating-point prices. Prices are exact `real`s, so `diff` of two infinities, NaN payloads and rounding are not modelled. An empty price cell is `None`, and `diff` next to it counts as a change, as NaN does.
- An empty tender id cell. Ids are always strings, so pandas' treatment of NaN as a dictionary key and as `"nan"` in the f-string is not modelled.
- Text.ContainsIgnoringCase: `str.contains` is treated as a plain substring test, which is exact for "Primary control" since it has no regular-expression metacharacters. Case folding covers ASCII letters only, while Python's case-insensitive matching also matches `ı` and `İ` to `i`: "Prımary control" is selected by the script and rejected by the model.
- Text.SearchFrom: the same ASCII-only case folding as `ContainsIgnoringCase`, so a description spelled with `ı` or `İ` for the `i` of "Primary" is not found.
- Text.Upper: upper-casing is modelled on ASCII letters only. Python's full Unicode upper-casing (e.g. `ß` to `SS`, which changes the length) is not modelled.
- MergeFill.LeftMerge: for keys that several right rows carry, the order of the merged rows is stated only through the definition; `MergeOneToOne` states the layout for unique right ids, which the numbered ids always are.
- `ExpectedBlocks.BuildExpected`: years are any natural number under the proleptic Gregorian calendar. The range limit of pandas timestamps (roughly 1677-2262) is not modelled.

## Findings

| source | as written | input that shows it | evidently intended | confidence | as-written member | corrected member |
|---|---|---|---|---|---|---|
| data/Swissgrid_PRL_SRL_TRL/PRL.py:43 | "Missing blocks before fill" prints `len(expected_df) - len(filtered_df)` | expected ids `PRL_23_01_01_1`, `PRL_23_01_01_2`, `PRL_23_01_02_1`; three surviving rows of tender `PRL_23_01_01`, numbered `PRL_23_01_01_1` to `_3`: prints 0, yet `PRL_23_01_02_1` has no row. On a whole year the same happens with 7 surviving rows on 1 January, 5 on 2 January and 6 on every other day: 0 is printed while block 6 of 2 January has no row | the number of expected blocks without a matching row (`MissingBlocks`) | not executed; medium | MissingCounts.MissingReportMiscounts | MissingCounts.MissingBlocks |

`MissingCounts.MissingReportedAsWritten` is the difference as printed. `MissingCounts.MissingBlocks` is the corrected count. `CleanYear` returns both and proves that the printed figure never exceeds the corrected one. The two agree when the expected and row ids are free of repeats and every numbered id is an expected id (`MissingReportAgreesWhenContained`). When every row also has a price, the corrected count equals the merged rows without a price before the fill (`MissingBlocksAreUnpricedRows`). A row with an empty price is kept by the filter and makes that second count larger.
