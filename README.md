# League-table ranking and parity labelling, modelled in Dafny

This project models the logic of a small scraping utility and two classroom
scripts.

The scraper (`ranking_scrapper.py`) reads every `<table>` of a league-standings
page. For each table it keeps the data rows that are at least as wide as the
header row, turns each row into a dictionary keyed by header, and picks the
team, points, won and nrr (net run rate) columns by substring tests on the
lower-cased labels. It converts those columns to numbers, sorts the rows on
(points, nrr, won) descending, numbers them 1..n, and tags them with the
table's position on the page. The non-empty tables are then concatenated in
page order.

The two scripts (`src/RulesBased.py`, `src/BetterSupervisedLearning.py`) label
integers "Even" or "Odd" by `n % 2`. They also encode that label as a 0/1
training target and a `n % 2` feature, and decode predictions back to labels.

Modules, one per component:

- `Wrappers` (wrappers.dfy): `Option` and `Result`.
- `NumberText` (number_text.dfy): `text_to_number`.
- `ColumnMapper` (column_mapper.dfy): the column heuristics.
- `Ranking` (ranking.dfy): one table, from raw rows to ranked rows, including
  the row-collecting loop as a method.
- `Aggregation` (aggregation.dfy): the loop over all tables, as a method, and
  its specification.
- `RulesBased` (rules_based.dfy) and `SupervisedLabels` (supervised_labels.dfy):
  the parity rule and the label encodings.

A table is given as its header labels (already stripped and lower-cased) and
the stripped `<td>` texts of every `<tr>`, in document order. A missing number
(`None`, NaN in the frame) is `Option.None`, and it sorts after every number in
each key, as pandas places missing values last.

Three behaviours of the code are easy to misread; the model follows the code:

- A table with no header labels but with at least one data row makes the code
  raise `IndexError` at `df.columns[0]`. That error ends the whole scrape. The
  model returns `Err(NoColumns)` and propagates it; it does not treat the team
  role as always resolvable.
- The data rows are always every `<tr>` after the first, even when the headers
  come from a `<thead>`.
- A repeated header label keeps the cell of its last occurrence (`dict(zip(...))`).
  Column selection scans the frame's deduplicated columns, which picks the same
  label as scanning the header row (`FirstMatchOfColumns`).

## Model

| member | source | states |
|---|---|---|
| NumberText.TextToNumberAccepts | ranking_scrapper.py:19-23 | the conversion is total, and yields a number exactly for the numerals: an optional sign, then only digits and '.', no two dots, at least one digit |
| NumberText.ParseUnsignedAccepts | ranking_scrapper.py:21 | the unsigned part parses exactly when it is an unsigned numeral in the character-by-character sense |
| NumberText.TextToNumberDecimal | ranking_scrapper.py:19-23 | digits, '.', digits (at least one digit in all) denote all their digits read as one integer divided by ten to the number of digits after the '.'; a leading '+' keeps that value and a leading '-' negates it |
| NumberText.TextToNumberOfInt | ranking_scrapper.py:19-23 | converting the decimal spelling of any integer gives back that integer |
| NumberText.TextToNumberExamples | ranking_scrapper.py:19-23 | "12" is 12, "12.5" is 12.5, "-3" is -3, "" and "N/A" give None |
| ColumnMapper.ContainsIff | ranking_scrapper.py:50-53 | the substring test `sub in s` holds exactly when sub occurs at some position of s |
| ColumnMapper.FirstMatch | ranking_scrapper.py:50-53 | `next(...)` gives the leftmost label passing the test, and gives None exactly when no label passes |
| ColumnMapper.SelectColumns | ranking_scrapper.py:50-53 | team is the first label containing "team" or "club", else the first column; points is the first containing "point" or equal to "p" or "pt"; won the first containing "won"; nrr the first containing "nrr"; each of the last three is unmapped exactly when no label qualifies |
| ColumnMapper.SelectedColumnsAreHeaders | ranking_scrapper.py:50-53 | every role that resolves names an existing column |
| ColumnMapper.Columns | ranking_scrapper.py:41-47 | the frame's columns are exactly the header labels, no label twice, and the first column is the first header |
| ColumnMapper.FirstMatchOfColumns | ranking_scrapper.py:47-53 | scanning the frame's columns picks the same label as scanning the header row |
| Ranking.DataRows | ranking_scrapper.py:37 | the data rows are the `<tr>` rows after the first, in order: one fewer than there are rows, none when there are none |
| Ranking.Zip | ranking_scrapper.py:41 | the row dictionary has one key per header label, and each label maps to the cell under its last occurrence |
| Ranking.ZipIgnoresExtraCells | ranking_scrapper.py:41 | cells beyond the header count do not affect the row dictionary |
| Ranking.KeptRowsMembers | ranking_scrapper.py:37-40 | a row is kept exactly when it has at least as many cells as there are headers |
| Ranking.KeptRowsCount | ranking_scrapper.py:37-42 | the number of kept rows equals the number of input rows passing the width test |
| Ranking.KeptIndices | ranking_scrapper.py:37-40 | the positions of the rows that pass the width test, strictly increasing, holding exactly those positions |
| Ranking.KeptRowsAtIndices | ranking_scrapper.py:37-42 | the filter keeps order: the k-th kept row is the input row at the k-th passing position |
| Ranking.Records | ranking_scrapper.py:36-42 | one dictionary per kept row, in order; each has exactly the header labels as keys, and each label maps to the row's cell under its last occurrence |
| Ranking.CollectRows | ranking_scrapper.py:36-42 | the loop builds the dictionaries of exactly the kept rows after the first `<tr>`, in order |
| Ranking.Coerce | ranking_scrapper.py:56-67 | an unmapped role reads 0; a mapped role yields a number exactly when the row's cell in that column is a numeral |
| Ranking.EntryOf | ranking_scrapper.py:56-69 | team is the row's text in the team column; each of points, nrr and won reads 0 when unmapped, and is missing exactly when its cell is not a numeral |
| Ranking.TableEntries | ranking_scrapper.py:56-69 | one coerced row per kept row |
| Ranking.TableEntriesFromCells | ranking_scrapper.py:56-69 | for every kept row, team is the row's text in the team column; a mapped points, nrr or won column gives `text_to_number` of that row's cell; an unmapped one gives 0 |
| Ranking.NumTieIsEquality | ranking_scrapper.py:72 | two sort keys tie exactly when both are missing or both are the same number |
| Ranking.RanksTotal | ranking_scrapper.py:72 | any two rows are comparable under the (points, nrr, won) descending order |
| Ranking.RanksTransitive | ranking_scrapper.py:72 | the (points, nrr, won) descending order is transitive |
| Ranking.Insert | ranking_scrapper.py:72 | inserting into a sorted sequence adds exactly the new row and keeps the sequence sorted |
| Ranking.SortDesc | ranking_scrapper.py:72 | the sorted rows are a permutation of the input, ordered non-increasingly on (points, nrr, won) with missing values last |
| Ranking.SortDescAllTied | ranking_scrapper.py:72 | when all rows tie, the sort keeps their input order |
| Ranking.SortDescExample | ranking_scrapper.py:72 | rows (10, 0.5, 5), (15, -0.2, 3), (10, 1.0, 2) come out as the 15-point row, then (10, 1.0), then (10, 0.5) |
| Ranking.RankEntries | ranking_scrapper.py:73-76 | one output row per sorted row, holding its values unchanged; row i has rank i+1 and carries the table index |
| Ranking.RankTable | ranking_scrapper.py:26-80 | only a table without headers can raise; on success the rows are ranked 1..n in order, carry the table index, and are sorted on (points, nrr, won) descending |
| Ranking.RankTableFails | ranking_scrapper.py:37-50 | a table raises exactly when it has no headers and at least one row after the first |
| Ranking.RankTableEmpty | ranking_scrapper.py:44-45 | a table with headers yields no rows exactly when every data row is narrower than the header row |
| Ranking.RankTableOutput | ranking_scrapper.py:72-76 | a table that does not raise yields one output row per kept row; the output is a permutation of the coerced rows, sorted on (points, nrr, won) descending; row i has rank i+1, and every row carries the table index |
| Ranking.ParseAndRankTable | ranking_scrapper.py:26-80 | the step-by-step procedure returns exactly the specified ranked table or error |
| Aggregation.ScrapeTables | ranking_scrapper.py:104-115 | the loop over all tables returns exactly the specified aggregate or error |
| Aggregation.TableResults | ranking_scrapper.py:106-107 | one result per table, and result k is the ranked table k with table index k |
| Aggregation.Collect | ranking_scrapper.py:104-109 | on success, `all_dfs` holds no more parts than there are tables, no empty part, and each part is the result of some table |
| Aggregation.Concat | ranking_scrapper.py:114 | a row is in the concatenation exactly when it is in one of the parts |
| Aggregation.Aggregate | ranking_scrapper.py:104-115 | on success, every output row belongs to the ranked rows of the table its `table_index` names |
| Aggregation.RowsComeFromTheirTable | ranking_scrapper.py:106-114 | a row of concatenated per-table results belongs to the ranked table its index names |
| Aggregation.CollectErrPersists | ranking_scrapper.py:106-107 | once a table raises, the error is the outcome of the whole scrape, whatever tables follow |
| Aggregation.AggregateFails | ranking_scrapper.py:106-107 | the scrape fails exactly when some table raises |
| Aggregation.AggregateIsConcat | ranking_scrapper.py:104-115 | when no table raises, the output is the concatenation in table order of every table's result; empty tables contribute nothing |
| Aggregation.AggregateLength | ranking_scrapper.py:114 | the output length is the sum of the per-table lengths |
| Aggregation.AggregateEmpty | ranking_scrapper.py:111-113 | the output is empty exactly when every table yields no rows |
| Aggregation.AggregateTableOrder | ranking_scrapper.py:106-114 | `table_index` never decreases along the output, and every index is the position of a table on the page |
| RulesBased.RuleBasedClassifier | src/RulesBased.py:2-6 | the result is "Even" or "Odd", and "Even" exactly when `number % 2 == 0` |
| RulesBased.SameLabelTwoApart | src/RulesBased.py:3 | n and n+2 always get the same label |
| RulesBased.AdjacentLabelsDiffer | src/RulesBased.py:3 | n and n+1 always get different labels |
| RulesBased.NegationKeepsLabel | src/RulesBased.py:3 | -n gets the label of n; -4 is "Even" and -3 is "Odd" under floor modulo |
| SupervisedLabels.RuleBasedOddEven | src/BetterSupervisedLearning.py:13-18 | the result has one entry per input, in input order, and entry i is the rule-based label of number i |
| SupervisedLabels.EncodeLabel | src/BetterSupervisedLearning.py:26 | the training target is 0 or 1, and 1 exactly when n is even |
| SupervisedLabels.ModFeature | src/BetterSupervisedLearning.py:40 | the feature is 0 or 1, and 0 exactly when the rule-based label of n is "Even" |
| SupervisedLabels.DecodePrediction | src/BetterSupervisedLearning.py:33 | the decoded label is "Even" or "Odd", and "Even" exactly when the prediction is 1 |
| SupervisedLabels.EncodeLabels | src/BetterSupervisedLearning.py:26 | one target per training number, each 0 or 1, and 1 exactly for the even numbers |
| SupervisedLabels.ModFeatures | src/BetterSupervisedLearning.py:40 | one single-feature row per number, each feature 0 or 1, and 0 exactly when the rule-based label of that number is "Even" |
| SupervisedLabels.DecodePredictions | src/BetterSupervisedLearning.py:33 | one label per prediction, "Even" exactly for the predictions equal to 1 |
| SupervisedLabels.DecodeEncode | src/BetterSupervisedLearning.py:26-33 | decoding the training target of n gives the rule-based label of n |
| SupervisedLabels.DecodeEncodeAll | src/BetterSupervisedLearning.py:24-33 | a learner that predicts the training targets exactly reproduces the rule-based labels, number by number |
| SupervisedLabels.ModFeatureDeterminesLabel | src/BetterSupervisedLearning.py:40-41 | the target is 1 minus the parity feature, so equal features give equal targets |

## Left out

- Page fetching (ranking_scrapper.py:83-100): the browser, navigation with its timeout, the fixed wait and the debug HTML file. These are I/O; the model starts from the extracted tables.
- HTML parsing (ranking_scrapper.py:27-38, 102-103): finding tables, `<thead>`, `<th>` and `<td>`, and `get_text(strip=True).lower()`. These belong to an external parser. The model takes header labels already stripped and lower-cased, plus the stripped cell texts of each row.
- NumberText.TextToNumber: covers only the decimal subset of Python's `float()`. Surrounding whitespace, exponents, underscores, "inf" and "nan" are not accepted, and values are exact rationals rather than rounded binary floats.
- The exact pandas mechanics: frame construction, `reset_index`, the column renaming and the dtype of the coerced columns. The model keeps only their effect on the output rows.
- Header labels equal to the frame's helper columns (`_points`, `_nrr`, `_won`, `_team`) are not modelled. In the code such a label can be overwritten before it is read.
- Printing the table, writing the CSV file and logging (ranking_scrapper.py:111-112, 117-126). These are I/O.
- The scikit-learn training and prediction calls in src/BetterSupervisedLearning.py (lines 28-32, 43-47, 58-62, 70-74). These are floating-point learners in an external library. Only the encodings around them are modelled, and `[[n] for n in ...]` is not modelled because it only wraps each number.
- Ranking.SortDesc: stability (tied rows keep their input order, as pandas' sort keeps them) is proved only for a run of rows that all tie (`SortDescAllTied`), not for ties among other rows.
- The demo drivers at the bottom of src/RulesBased.py and src/BetterSupervisedLearning.py only print.
