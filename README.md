# Band-gap preprocessing, modelled in Dafny

This project models the data-preparation core of the band-gap prediction
script `Pre-processing/band_gap_prediction_preprocessing.py`. The script reads
a table of compounds: chemical formula, band gap, colour, crystallinity and
further columns. It then:

- drops the `Color` column and coerces `Band gap` to a number (text that is
  not a number, such as a value with a `±`, becomes missing);
- deletes the characters `$ _ { }` from every formula and drops every row
  with a missing field;
- rewrites LaTeX subscripts with `clean_chemical_formula`, a bare
  `$_{d}$` pass followed by a letter-prefixed `L$_{d}$` pass;
- hands each formula to pymatgen's composition parser, collecting the
  elements of the formulas that parse and the formulas that fail;
- counts the elements and sorts the counts, largest first;
- separately lists the recurring compounds of the table as read: formulas
  with more than one row, one row per (formula, band gap) pair, sorted by
  formula.

Modules, one per file:

- `wrappers.dfy` (`Wrappers`): `Option`.
- `seqs.dfy` (`Seqs`): order-preserving selection (`Filter`), the way a
  boolean mask selects rows.
- `sorting.dfy` (`Sorting`): a stable sort by a caller-given order and
  Python's `str` ordering.
- `formula.dfy` (`Formula`): the character strip and the two regex passes,
  written as left-to-right scans. At each position a scan either matches
  and resumes after the match, or copies one character.
- `table.dfy` (`Table`): rows, the column operations and `dropna`.
- `parsing.dfy` (`Parsing`): the two parse loops and
  `clean_and_parse_formula`.
- `frequency.dfy` (`Frequency`): `Counter`, the zip into (Element, Count)
  rows and the sort by count.
- `recurring.dfy` (`Recurring`): the recurring-compounds query.
- `preprocess.dfy` (`Preprocess`): the script's steps in the order it runs
  them, as one method.

A missing cell (pandas' NaN) is `None`. The numeric band gap is a value of
an opaque type `G`, produced by the parameter `toNumber` (`pd.to_numeric`
on one cell). The composition parser is the parameter `parse`: the
formula's elements, or `None` where pymatgen raises. Each step that rebinds
a dataframe variable or reassigns a column (lines 75, 83, 214) is a
reassignment of a local sequence of rows in `Preprocess.Run`.

The pass order follows the code: line 207 runs the bare pass before line
210 runs the letter-prefixed pass. A reader might expect the more specific
letter-prefixed pattern to win; `Formula.PassOrderMatters` shows that the
two orders differ, on `L$_{$_{d}$}$`.

## Model

| member | source | states |
|---|---|---|
| Formula.Strip | Pre-processing/band_gap_prediction_preprocessing.py:83 | the stripped formula holds none of `$ _ { }` and is no longer than the original |
| Formula.StripKeepsOthersInOrder | Pre-processing/band_gap_prediction_preprocessing.py:83 | the strip deletes exactly the characters of `[$_{}]` and keeps every other character, in order |
| Formula.StripAppend | Pre-processing/band_gap_prediction_preprocessing.py:83 | stripping works character by character: stripping a concatenation strips each part |
| Formula.StripIdempotent | Pre-processing/band_gap_prediction_preprocessing.py:83 | stripping twice is stripping once |
| Formula.SubscriptAtSound | Pre-processing/band_gap_prediction_preprocessing.py:207 | a match reported by the scanner is a match of `\$_\{([0-9.]+)\}\$` with that group length |
| Formula.SubscriptAtComplete | Pre-processing/band_gap_prediction_preprocessing.py:207 | every match of the bare pattern at the scan position is reported, with its group length |
| Formula.LetterSubscriptAtSound | Pre-processing/band_gap_prediction_preprocessing.py:210 | a reported match is a match of `([A-Za-z]+)\$_\{([0-9.]+)\}\$` with those letter and group lengths |
| Formula.LetterSubscriptAtComplete | Pre-processing/band_gap_prediction_preprocessing.py:210 | every match of the letter-prefixed pattern at the scan position is reported |
| Formula.BarePass | Pre-processing/band_gap_prediction_preprocessing.py:207 | the `re.sub` of line 207 as a left-to-right scan; its own contract says only that it never lengthens the formula. `BarePassAtMatch` and `BarePassNoMatch`, with `SubscriptAtSound` and `SubscriptAtComplete`, make it the leftmost non-overlapping substitution |
| Formula.BarePassAtMatch | Pre-processing/band_gap_prediction_preprocessing.py:207 | where the pattern matches, the pass emits the group and goes on after the closing `}$` |
| Formula.BarePassPrefix | Pre-processing/band_gap_prediction_preprocessing.py:207 | text without `$` in front is copied unchanged |
| Formula.BarePassSubscripted | Pre-processing/band_gap_prediction_preprocessing.py:207 | a leading `$_{d}$` becomes `d` |
| Formula.BarePassNoDollar | Pre-processing/band_gap_prediction_preprocessing.py:207 | on a formula without `$` the bare pass is the identity |
| Formula.LetterPass | Pre-processing/band_gap_prediction_preprocessing.py:210 | the `re.sub` of line 210 as a left-to-right scan; its own contract says only that it never lengthens the formula. `LetterPassAtMatch` and `LetterPassNoMatch`, with `LetterSubscriptAtSound` and `LetterSubscriptAtComplete`, make it the leftmost non-overlapping substitution |
| Formula.LetterPassAtMatch | Pre-processing/band_gap_prediction_preprocessing.py:210 | where the pattern matches, the pass emits letters and group and goes on after the match |
| Formula.LetterPassSubscripted | Pre-processing/band_gap_prediction_preprocessing.py:210 | a leading `L$_{d}$` becomes `Ld` |
| Formula.LetterPassNoDollar | Pre-processing/band_gap_prediction_preprocessing.py:210 | on a formula without `$` the letter pass is the identity |
| Formula.LetterPassNoLetter | Pre-processing/band_gap_prediction_preprocessing.py:210 | on text without letters the letter pass is the identity |
| Formula.Clean | Pre-processing/band_gap_prediction_preprocessing.py:200-211 | cleaning never lengthens a formula |
| Formula.CleanNoDollar | Pre-processing/band_gap_prediction_preprocessing.py:200-211 | a formula without `$` is returned unchanged |
| Formula.StripClean | Pre-processing/band_gap_prediction_preprocessing.py:200-211 | cleaning only deletes markup: the input and the output strip to the same string |
| Formula.CleanTrailingSubscript | Pre-processing/band_gap_prediction_preprocessing.py:200-211 | `E$_{n}$`, with `E` free of `$`, cleans to `En` |
| Formula.CleanTwoSubscripts | Pre-processing/band_gap_prediction_preprocessing.py:200-211 | `p$_{d}$q$_{e}$` cleans to `pdqe` |
| Formula.CleanDocExample | Pre-processing/band_gap_prediction_preprocessing.py:209-210 | `Bi$_{0.85}$Sb$_{0.15}$` cleans to `Bi0.85Sb0.15` |
| Formula.CleanNested | Pre-processing/band_gap_prediction_preprocessing.py:207-210 | `L$_{$_{d}$}$` cleans to `Ld`: the bare pass leaves `L$_{d}$`, which the letter pass rewrites |
| Formula.PassOrderMatters | Pre-processing/band_gap_prediction_preprocessing.py:207-210 | letter pass first would leave `L$_{d}$` on the same input, so the order of lines 207 and 210 matters |
| Formula.CleanAfterStrip | Pre-processing/band_gap_prediction_preprocessing.py:214 | cleaning a stripped formula changes nothing |
| Table.DropColor | Pre-processing/band_gap_prediction_preprocessing.py:62 | every row stays, with its formula, band gap and other cells; only the colour goes |
| Table.CoerceCell | Pre-processing/band_gap_prediction_preprocessing.py:75 | a present number is kept; missing stays missing; text that is not a number becomes missing |
| Table.CoerceBandGap | Pre-processing/band_gap_prediction_preprocessing.py:75 | only the band-gap column changes, each cell coerced in its own row |
| Table.StripFormulas | Pre-processing/band_gap_prediction_preprocessing.py:83 | only the formula column changes; a present formula is stripped, a missing one stays missing |
| Table.DropMissing | Pre-processing/band_gap_prediction_preprocessing.py:86 | the kept rows are complete rows of the table, and every complete row is kept |
| Table.DropMissingAppend | Pre-processing/band_gap_prediction_preprocessing.py:86 | `dropna` keeps row order: it works block by block |
| Table.DropMissingOne | Pre-processing/band_gap_prediction_preprocessing.py:86 | a single row survives exactly when it is complete |
| Table.MissingBandGap | Pre-processing/band_gap_prediction_preprocessing.py:92 | the selection holds exactly the rows whose band gap is missing |
| Table.InvalidSelectionEmpty | Pre-processing/band_gap_prediction_preprocessing.py:92 | after `dropna` the invalid-band-gap selection is empty |
| Table.SecondDropMissingNoOp | Pre-processing/band_gap_prediction_preprocessing.py:98 | the second `dropna` returns its input |
| Table.StrippedAfterDrop | Pre-processing/band_gap_prediction_preprocessing.py:83-86 | after the strip and `dropna` no formula holds a `$` |
| Table.CleanFormulas | Pre-processing/band_gap_prediction_preprocessing.py:214 | on a table whose formulas are all present, only the formula column changes and each formula is replaced by its cleaned form |
| Table.CleanFormulasNoOp | Pre-processing/band_gap_prediction_preprocessing.py:214 | on the stripped table, applying `clean_chemical_formula` changes nothing |
| Table.FormulaColumn | Pre-processing/band_gap_prediction_preprocessing.py:224-225 | the formulas of the rows, in row order |
| Parsing.Failures | Pre-processing/band_gap_prediction_preprocessing.py:230-233 | the failed list holds exactly the formulas that fail |
| Parsing.Successes | Pre-processing/band_gap_prediction_preprocessing.py:226-229 | the formulas that parse |
| Parsing.Elements | Pre-processing/band_gap_prediction_preprocessing.py:229 | `element_list` after the loop; its own contract says only that it is empty when no formula parses. `RowOutcome`, `ElementsAppend` and `ElementsOfSuccesses` fix what each row contributes and where |
| Parsing.ParseAndCollect | Pre-processing/band_gap_prediction_preprocessing.py:221-233 | the loop builds `element_list` and `failed_formulas` row by row, as `Elements` and `Failures` define them |
| Parsing.RowOutcome | Pre-processing/band_gap_prediction_preprocessing.py:224-233 | each row either adds its elements or is listed as failed, never both, in row position |
| Parsing.ElementsAppend | Pre-processing/band_gap_prediction_preprocessing.py:224-233 | rows are handled independently, so a failure does not stop or change later rows |
| Parsing.ElementsOfSuccesses | Pre-processing/band_gap_prediction_preprocessing.py:226-233 | the element list is that of the formulas that parse |
| Parsing.SuccessesAndFailuresPartition | Pre-processing/band_gap_prediction_preprocessing.py:226-233 | every row is a success or a failure |
| Parsing.CleanAndParse | Pre-processing/band_gap_prediction_preprocessing.py:244-254 | on a formula without `$` the result is the parser's own result: its elements, or `None` on failure |
| Parsing.CleanAndParseDocExample | Pre-processing/band_gap_prediction_preprocessing.py:244-251 | `Bi$_{0.85}$Sb$_{0.15}$` is parsed as `Bi0.85Sb0.15` |
| Parsing.CollectParsed | Pre-processing/band_gap_prediction_preprocessing.py:257-261 | `parsed_elements` gathers the elements of each formula `clean_and_parse_formula` accepts, in row order |
| Parsing.ReparseAgrees | Pre-processing/band_gap_prediction_preprocessing.py:257-261 | on the stripped formulas the second loop collects exactly the first loop's element list |
| Frequency.DistinctSpec | Pre-processing/band_gap_prediction_preprocessing.py:268 | the counter's keys are the values of the element list, each once |
| Frequency.CountTable | Pre-processing/band_gap_prediction_preprocessing.py:268-269 | one row per distinct element, with its number of occurrences (positive), and every element has a row |
| Frequency.Accumulate | Pre-processing/band_gap_prediction_preprocessing.py:268 | counting one element at a time yields the keys in first-seen order and each key's number of occurrences |
| Frequency.CountsSnoc | Pre-processing/band_gap_prediction_preprocessing.py:268 | one more element raises its count by one, or adds it with count 1 |
| Frequency.CountElements | Pre-processing/band_gap_prediction_preprocessing.py:268-269 | the zipped keys and counts are the count table |
| Frequency.CountsSumToLength | Pre-processing/band_gap_prediction_preprocessing.py:268-269 | the counts add up to the length of the element list |
| Frequency.SortedTable | Pre-processing/band_gap_prediction_preprocessing.py:271 | `element_df_sorted`: a permutation of the counter's table. `SortedTableSpec` adds that counts never increase down the table |
| Frequency.SortedTableSpec | Pre-processing/band_gap_prediction_preprocessing.py:271 | the sorted table has the same rows, with counts never increasing down the table |
| Frequency.RowsContaining | Pre-processing/band_gap_prediction_preprocessing.py:226-229 | the rows whose parsed composition contains the element |
| Frequency.OccurrencesAreRows | Pre-processing/band_gap_prediction_preprocessing.py:229 | an element occurs in the element list once per row whose composition contains it |
| Frequency.CountIsRowCount | Pre-processing/band_gap_prediction_preprocessing.py:268-269 | each count is the number of rows whose composition contains that element |
| Recurring.KeepRecurring | Pre-processing/band_gap_prediction_preprocessing.py:114-115 | exactly the rows whose formula has more than one row; rows with a missing formula are left out |
| Recurring.DropDuplicates | Pre-processing/band_gap_prediction_preprocessing.py:116 | `drop_duplicates` on the (formula, band gap) pair; its own contract says only that it keeps input rows and no more of them. `DropDuplicatesSound`, `DropDuplicatesComplete`, `DropDuplicatesKeepsPairs` and `DropDuplicatesDistinct` make it exactly the first row of each pair, in table order |
| Recurring.DropDuplicatesSound | Pre-processing/band_gap_prediction_preprocessing.py:116 | every kept row is the first row with its (formula, band gap) pair |
| Recurring.DropDuplicatesComplete | Pre-processing/band_gap_prediction_preprocessing.py:116 | every row that is first with its pair is kept |
| Recurring.DropDuplicatesKeepsPairs | Pre-processing/band_gap_prediction_preprocessing.py:116 | every pair of the input is the pair of a kept row |
| Recurring.DropDuplicatesDistinct | Pre-processing/band_gap_prediction_preprocessing.py:116 | no two kept rows share a pair |
| Recurring.DropDuplicatesKeepRecurringCommute | Pre-processing/band_gap_prediction_preprocessing.py:114-116 | filtering the groups and dropping repeated pairs can be done in either order |
| Recurring.FormulaLeTotalPreorder | Pre-processing/band_gap_prediction_preprocessing.py:117 | the formula order is total and transitive |
| Recurring.RecurringCompounds | Pre-processing/band_gap_prediction_preprocessing.py:113-118 | `reoccurring_compounds`; its own contract says only that it lists no more rows than the table has. `RecurringRowsRecur`, `RecurringSortedByFormula`, `RecurringNoRepeatedPair`, `RecurringKeepsFirst` and `RecurringKeepsEveryPair` pin it down |
| Recurring.RecurringRowsRecur | Pre-processing/band_gap_prediction_preprocessing.py:113-118 | every listed row is a row of the table whose formula occurs at least twice |
| Recurring.RecurringSortedByFormula | Pre-processing/band_gap_prediction_preprocessing.py:117 | the listed rows are ordered by formula |
| Recurring.RecurringNoRepeatedPair | Pre-processing/band_gap_prediction_preprocessing.py:116 | no (formula, band gap) pair is listed twice |
| Recurring.RecurringKeepsFirst | Pre-processing/band_gap_prediction_preprocessing.py:116 | each listed row is the first row of the table with its pair, and each such recurring row is listed |
| Recurring.RecurringKeepsEveryPair | Pre-processing/band_gap_prediction_preprocessing.py:114-116 | every pair of a recurring formula is listed |
| Sorting.SortBy | Pre-processing/band_gap_prediction_preprocessing.py:117 | `sort_values` (also at line 271), as a stable insertion sort: a permutation of its input. `SortBySorted` adds that the output is ordered |
| Sorting.SortBySorted | Pre-processing/band_gap_prediction_preprocessing.py:117 | the sort orders its output and keeps exactly its input rows |
| Sorting.SortByPairwise | Pre-processing/band_gap_prediction_preprocessing.py:116-117 | sorting keeps pairwise distinct keys distinct |
| Sorting.LexLeTotalPreorder | Pre-processing/band_gap_prediction_preprocessing.py:117 | Python's `str` order is total and transitive |
| Seqs.FilterIdempotent | Pre-processing/band_gap_prediction_preprocessing.py:98 | selecting twice with the same mask is selecting once |
| Preprocess.Run | Pre-processing/band_gap_prediction_preprocessing.py:62-271 | the clean table is the stripped, coerced table without incomplete rows; the invalid selection is empty; no clean formula holds `$`; `parsed_elements` equals `element_list`; the element table is sorted by count; the recurring list is the query on the table as read |

## Left out

- The package installation line (line 21), the MAST-ML imports (lines 24-31) and the feature types (lines 278-281): they configure later modelling steps, not preprocessing.
- The selection of the `data` and `target` columns (lines 275-276): they only name two columns of the clean table for later modelling steps; `Table.FormulaColumn` is the formula column itself.
- Random seeding (lines 50-52): nothing in the modelled steps is random.
- Reading the CSV file from a URL (lines 55-56): the table as read is the parameter `raw`, with every cell as text or missing.
- The internals of `pd.to_numeric` (line 75): the parameter `toNumber`, `None` for text that is not a number.
- The composition parser (lines 228 and 250): the parameter `parse`, `None` where pymatgen raises. Its error messages are not modelled.
- Stripping spaces from the column names (line 128): lines 75 and 83 already read `Band gap` and `Chemical formula` by their exact names, so the strip changes no column the model reads.
- The band-gap statistics (lines 124-143), the histogram (lines 148-184), and all printing and displaying (lines 187-194, 217-218, 236-242, 264-265): they only show data.
- The dataframe index and column order: rows are a sequence, and columns other than formula, band gap and colour are one list of cells.
- Frequency.SortedTableSpec: pandas' default sort does not promise an order among equal counts. The model sorts stably, keeping the counter's key order, and the lemma fixes no order among ties.
- Recurring.RecurringSortedByFormula: the same holds for rows with equal formulas. The model keeps table order among them, and the lemma fixes no order among ties.
- Frequency.CountIsRowCount: assumes that a parsed composition lists each element once, as `Composition.elements` does. `parse` is an arbitrary function, so the lemma requires this of it.
- Recurring.KeyOf: `drop_duplicates` (line 116) compares the band gap as text, as read. A column that `read_csv` turned into numbers would compare numerically.
- Table.CleanFormulas: requires every formula to be present. On a missing formula the regex substitution of line 207 raises, and the model does not represent that error; line 214 only sees rows that passed `dropna`.
