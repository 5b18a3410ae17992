# Disaster-response ETL: load_data and clean_data in Dafny

This project models the data-preparation step of a disaster-response
message classifier (`data/process_data.py`). Two CSV files are read: one of
messages and one of category labels. The step joins them, turns the label
string into one integer column per category, and removes duplicate rows.

- `load_data` (module `Loading`) is a pandas left merge of the messages onto
  the categories on `id`, followed by dropping `id`. Messages keep their
  order. Each message is followed by all categories rows that share its
  `id`, in file order. A message without any match gets missing values. A
  non-key label present in both files gets the suffixes `_x` and `_y`.
- `clean_data` (modules `Cleaning` and `CleaningProperties`) works in these steps:
  - It splits the `categories` string (`related-1;request-0;...`) at
    semicolons into as many columns as the widest row, padding shorter rows
    with missing values.
  - It names the new columns after the first row's tokens without their last
    two characters.
  - In a loop over the columns, it keeps each cell's last character and
    converts it to an integer.
  - It forces the `related` column into {0,1}.
  - It drops `categories` from the caller's frame in place and appends the
    new columns.
  - It drops exact duplicate rows, keeping the first.

A table is a list of column labels and a list of rows. A row is a list of
cells, and a cell is a string, an integer or a missing value (`NaN`).
Wherever pandas would raise, the model returns an error value instead:
- a missing label, for `df['categories']` or `categories['related']`;
- a label naming several columns, where `.str` meets a DataFrame;
- `iloc[0]` on no rows;
- `x[:-2]` on a missing first-row cell;
- `astype(int)` on anything but a single decimal digit.

`clean_data` is imperative in the source, and so is the model.
- Class `Cleaning.Frame` holds a DataFrame's labels and rows.
- Method `Cleaning.ConvertColumns` is the `for column in categories` loop,
  overwriting one column per iteration.
- Method `Cleaning.CleanData` mutates the caller's frame as line 53 does.
- Each method is proved equal to a specification function (`FirstBadColumn`,
  `DecodedBelow`, `Clean`).
- `CleaningProperties` states what `Clean` means without pandas terms:
  - exactly which inputs it accepts (`Cleanable`);
  - the row it builds from each input row (`ExpectedRow`);
  - the guarantees about columns, `related`, and deduplication.

Four things in the code differ from what a reader might expect. The model
follows the code in each case:
- **clean_data is not idempotent.** A second application fails with a
  KeyError, because `categories` is gone, unless a category is itself called
  `categories` (`CleanNotReapplicable`).
- **The merged table can have more rows than both files together.**
  Duplicate ids multiply rows: 2 messages and 3 categories rows with one
  shared id give 6 rows (`LoadManyToMany`). With distinct category ids there
  is exactly one row per message (`LoadDataRowCount`).
- **Only `related` is forced into {0,1}.** Any other category keeps whatever
  digit its token ends in, 2 included (`ProcessOneMessage`).
- **A message without a categories row makes the whole run fail.** When the
  messages file has no `categories` column, that message's category cell is
  missing after the merge, and clean_data accepts only string category cells
  (`ProcessFailsOnUnmatchedMessage`). Where the failure surfaces depends on
  the position: at line 48 when a later row is the unmatched one
  (`ProcessUnmatchedMessage`), at line 40 when it is the first row.

## Model

| member | source | states |
|---|---|---|
| Frames.DropColumnAt | data/process_data.py:20 | `drop(label, axis=1)` removes that label and the same position from every row, keeping the rest in order |
| Frames.Concat | data/process_data.py:54 | `pd.concat(axis=1)` puts the second frame's labels after the first's and each row's cells after the first frame's row; the result is rectangular when both inputs are |
| CategoryString.Split | data/process_data.py:33 | `str.split(";")` gives at least one piece and no piece contains a semicolon (empty pieces are kept) |
| CategoryString.JoinSplit | data/process_data.py:33 | joining the pieces with semicolons gives back the original string, so splitting loses nothing |
| CategoryString.SplitJoin | data/process_data.py:33 | splitting the join of semicolon-free tokens gives back exactly those tokens, in order |
| CategoryString.TrimSuffix | data/process_data.py:40 | `x[:-2]` is a prefix of the token, two characters shorter, or empty for tokens shorter than two |
| CategoryString.LastChars | data/process_data.py:47 | `x[-1:]` is the last character of a non-empty token and the empty string otherwise |
| CategoryString.DigitValue | data/process_data.py:48 | a one-character string converts to an integer exactly when it is a decimal digit, and the value is that digit |
| CategoryString.CategoriesRoundTrip | data/process_data.py:33-48 | for a label string written as `name-d;name-d;...`, the split, `x[:-2]` and last-character steps recover every name and every digit, in order |
| Dedup.DropDuplicates | data/process_data.py:57 | `drop_duplicates()` returns no two equal rows, keeps every input row's value, invents none, and is no longer than its input |
| Dedup.DropDuplicatesOfDistinct | data/process_data.py:57 | a table without repeated rows is returned unchanged |
| Dedup.DropDuplicatesIdempotent | data/process_data.py:57 | dropping duplicates twice is the same as once |
| Dedup.DropDuplicatesKeepsFirstOccurrenceOrder | data/process_data.py:57 | the kept rows appear in the order of their first occurrences in the input (keep='first') |
| Loading.SuffixesDisambiguate | data/process_data.py:20 | a non-key label both files have becomes two different labels (`_x` on the messages side, `_y` on the categories side), neither equal to the original; a label only one file has keeps its name |
| Loading.Matching | data/process_data.py:20 | the categories rows matched to a key are exactly those whose `id` equals it |
| Loading.MatchingCountsAt | data/process_data.py:20 | a categories row is matched as often as it occurs in the file when its `id` is the key, and never otherwise |
| Loading.MatchingCounts | data/process_data.py:20 | each categories row with the key is matched as many times as it occurs in the file, and no other row is matched |
| Loading.MatchingAppend | data/process_data.py:20 | matching keeps file order: the matches in `a + b` are those in `a` followed by those in `b` |
| Loading.Block | data/process_data.py:20 | a message yields at least one merged row, so a left merge never loses a message |
| Loading.BlockRows | data/process_data.py:20 | a message yields merged rows each starting with the message's cells and as wide as both files minus the shared key |
| Loading.JoinRows | data/process_data.py:20 | the merge has at least one row per message |
| Loading.JoinRowsWidth | data/process_data.py:20 | every merged row has the merged table's width |
| Loading.MergedLabels | data/process_data.py:20 | the merge has one label per messages label plus one per categories label other than the key |
| Loading.MergedLabelAt | data/process_data.py:20 | position `q` of the merged labels is the `q`-th messages label with its suffix, and after the messages labels come the non-key categories labels with theirs, in order |
| Loading.Merge | data/process_data.py:20 | the merged table is rectangular, with as many labels as both files together minus one |
| Loading.MergeColumns | data/process_data.py:20 | the merged labels are the messages labels in order, `_x` on shared ones, then the categories labels other than `id` in order, `_y` on shared ones |
| Loading.DroppedLabels | data/process_data.py:20 | after dropping the messages key, the labels are the other messages labels (suffixed) followed by the non-key categories labels (suffixed) |
| Loading.MergeDropsKey | data/process_data.py:20 | once the key column is dropped, no label `id` remains, suffixed labels included |
| Loading.LoadData | data/process_data.py:20 | load_data fails exactly when either file lacks an `id` column; otherwise the table is rectangular, has no `id` column and has as many columns as both files minus the two keys |
| Loading.LoadDataColumns | data/process_data.py:20 | the output labels are the messages labels without `id`, in order and suffixed, followed by the categories labels without `id`, in order and suffixed |
| Loading.LoadDataLeftLabel | data/process_data.py:20 | every non-key messages label reaches the output, with `_x` when the categories file shares it |
| Loading.LoadDataRightLabel | data/process_data.py:20 | every non-key categories label reaches the output, with `_y` when the messages file shares it |
| Loading.LoadDataLabels | data/process_data.py:20 | a label only one file has comes through unchanged; a label both have comes through as `_x` and as `_y` |
| Loading.LoadDataOneMessage | data/process_data.py:20 | one message gives one output row per matching categories row, in file order, or a single row padded with missing values when none matches |
| Loading.JoinRowsAppend | data/process_data.py:20 | the merge of two batches of messages is the merge of the first followed by the merge of the second |
| Loading.JoinRowsOnePerMessage | data/process_data.py:20 | when no two categories rows share an `id`, the merge has exactly one row per message |
| Loading.MatchingAtMostOne | data/process_data.py:20 | with distinct category ids at most one categories row matches a message |
| Loading.LoadDataRowOrigin | data/process_data.py:20 | every output row is some message without its `id`, followed by either a matching categories row without its `id` or missing values when nothing matches |
| Loading.LoadDataRows | data/process_data.py:20 | when both files have an `id` column, load_data succeeds and its rows are the merged rows with the key cell removed |
| Loading.LoadDataKeepsEveryMessage | data/process_data.py:20 | every message appears in the output: with missing values if no categories row matches, and otherwise combined with each matching categories row |
| Loading.LoadDataKeepsMessageOrder | data/process_data.py:20 | the output for messages `a + b` is the output for `a` followed by the output for `b` (a left merge keeps the left order) |
| Loading.LoadDataRowCount | data/process_data.py:20 | the output has at least one row per message, and exactly one when the category ids are distinct |
| Cleaning.Width | data/process_data.py:33 | `expand=True` makes as many columns as the row with the most tokens |
| Cleaning.SplitExpand | data/process_data.py:33 | the split frame has one row per input row, each as wide as the widest split |
| Cleaning.ColumnNames | data/process_data.py:36-42 | one column name per first-row token |
| Cleaning.AsInt | data/process_data.py:48 | a converted one-character string is a single decimal digit and the value is that digit; a missing value does not convert |
| CleaningProperties.AsIntConverts | data/process_data.py:48 | a string of at most one character converts exactly when it is one decimal digit; an integer stays as it is |
| Cleaning.LastChar | data/process_data.py:47 | `.str[-1:]` leaves a string of at most one character |
| Cleaning.ZeroOrOne | data/process_data.py:50 | the `related` rule gives 0 or 1, leaves 0 and 1 unchanged and turns everything else into 1 |
| Cleaning.CoercedAt | data/process_data.py:50 | only column `k` changes, to its value under the `related` rule; every row keeps its length |
| Cleaning.FirstBadColumn | data/process_data.py:46-48 | the loop's error is always an ambiguous column name or a failed integer conversion |
| CleaningProperties.FirstBadColumnSome | data/process_data.py:46-48 | when the loop fails it fails at the first bad column: every earlier column is unique and converts, and the error names that column, an ambiguous name reported before a failed conversion |
| CleaningProperties.ExpandOutcomes | data/process_data.py:33-54 | the steps before line 57 fail with a KeyError without `categories`, fail on a repeated `categories` label and on a frame without rows; on success they give one row per input row |
| Cleaning.Clean | data/process_data.py:33-57 | fails exactly when the steps before line 57 fail, with the same error; otherwise it keeps those columns and returns their rows without repeats, every one of them and no others |
| Cleaning.Frame.constructor | data/process_data.py:33 | a frame holds exactly the table it is built from |
| Cleaning.Frame.KeepLastChar | data/process_data.py:47 | overwrites column `j` of every row with its last character, leaving every other cell and the labels alone |
| Cleaning.Frame.ColumnAsInt | data/process_data.py:48 | succeeds exactly when every cell of column `j` converts, then holds the converted integers; on failure nothing changes |
| Cleaning.Frame.CoerceColumn | data/process_data.py:50 | overwrites only column `k`, with the `related` rule |
| Cleaning.Frame.DropColumn | data/process_data.py:53 | removes column `k` from the labels and from every row, in place |
| Cleaning.ConvertColumn | data/process_data.py:47-48 | one loop iteration succeeds exactly when every cell of column `j` converts, and then column `j` holds the converted digits |
| Cleaning.ConvertColumns | data/process_data.py:46-48 | the loop stops at the first ambiguous or unconvertible column; otherwise every column holds its converted digits |
| Cleaning.CleanData | data/process_data.py:23-59 | clean_data returns the specification result; on success the caller's frame has lost exactly its `categories` column, and on failure it is unchanged |
| CleaningProperties.FirstBadColumnNone | data/process_data.py:46-48 | the loop raises nothing exactly when every column from `j` on has a unique name and converts |
| CleaningProperties.SplitExpandDecodable | data/process_data.py:33 | when all rows have as many tokens as the first, the split frame holds exactly each row's tokens |
| CleaningProperties.ConvertibleCell | data/process_data.py:46-48 | a split cell that converts is a real token of its row, ending in a digit |
| CleaningProperties.RelatedOnlyAt | data/process_data.py:50 | on an accepted input exactly one category column is named `related`, the one line 50 selects |
| CleaningProperties.CategoryNamesDistinct | data/process_data.py:40-42 | on an accepted input no two category columns share a name |
| CleaningProperties.DecodableScan | data/process_data.py:33-48 | on an accepted input the first row names the columns and every column converts |
| CleaningProperties.DecodedCell | data/process_data.py:47-50 | a token cell ends up as its last digit, brought into {0,1} only in the `related` column |
| CleaningProperties.BuiltTail | data/process_data.py:46-50 | the category cells of each row are its tokens' digits in split order, with only `related` coerced |
| CleaningProperties.BuiltRow | data/process_data.py:42-54 | each row of the result is the input row without `categories`, followed by the digits of its tokens in split order, with `related` coerced |
| CleaningProperties.ExpandMeaning | data/process_data.py:33-54 | before deduplication the result has exactly the expected columns and one expected row per input row |
| CleaningProperties.CleanMeaning | data/process_data.py:33-57 | clean_data on an accepted input returns the expected columns and the expected rows with later duplicates removed |
| CleaningProperties.ConvertedRows | data/process_data.py:46-48 | if every split column converts, every row's category string has exactly as many tokens as the widest and all of them end in a digit |
| CleaningProperties.ConvertedRow | data/process_data.py:46-48 | the same for one row: its category cell is a string of exactly as many tokens as the widest, each ending in a digit |
| CleaningProperties.FirstRowTokens | data/process_data.py:36-42 | when the first split row is non-empty and all strings, the first category cell is a string and the names come from its tokens |
| CleaningProperties.ExpandSuccessChecks | data/process_data.py:33-50 | a successful run has found a unique `categories` column, at least one row, distinct converting columns and a `related` column |
| CleaningProperties.SuccessNames | data/process_data.py:36-42 | on a successful run the names of line 42 are the first row's tokens without their last two characters |
| CleaningProperties.ExpandSuccessIsCleanable | data/process_data.py:33-54 | any input clean_data does not fail on is an accepted input |
| CleaningProperties.CleanSucceedsIff | data/process_data.py:33-57 | clean_data succeeds if and only if the input is accepted: a unique `categories` column, at least one row, string category cells with equally many tokens, distinct names, tokens ending in digits, and a `related` column |
| CleaningProperties.CleanWithoutRelatedFails | data/process_data.py:50 | when everything decodes but no category is named `related`, clean_data fails with a KeyError for `related` |
| CleaningProperties.ExpectedRowCells | data/process_data.py:50-54 | in each built row, the cells before the category columns are the input row without `categories`; `related` is 0 or 1, keeps a 0 or 1 and turns any larger digit into 1; every other category holds its token's digit unchanged |
| CleaningProperties.CleanRows | data/process_data.py:57 | the output rows are pairwise distinct and no more than the input rows; every built row appears and every output row is a built row, in order of first occurrence |
| CleaningProperties.CleanRowOrigin | data/process_data.py:57 | every kept row is the row built from some input row |
| CleaningProperties.KeptRowShape | data/process_data.py:50-57 | every kept row has one cell per output column and holds 0 or 1 in the `related` column |
| CleaningProperties.CleanRectangular | data/process_data.py:54-57 | every row of the result has one cell per column |
| CleaningProperties.ExpectedRelatedCell | data/process_data.py:50 | the `related` cell of every built row is 0 or 1 |
| CleaningProperties.ExpectedRelatedBinary | data/process_data.py:50-57 | every row kept by `drop_duplicates` holds 0 or 1 in the `related` column |
| CleaningProperties.CleanRelatedBinary | data/process_data.py:50 | the result has a `related` column and every row holds 0 or 1 there |
| CleaningProperties.OtherColumns | data/process_data.py:53 | dropping `categories` leaves every other input label, in order, and no `categories` label |
| CleaningProperties.CleanKeepsOtherColumns | data/process_data.py:53-54 | the result starts with the input columns other than `categories`, in their original order, and all of them are there |
| CleaningProperties.CleanNotReapplicable | data/process_data.py:33 | applied to its own output, clean_data fails for lack of a `categories` column unless a category is itself named `categories` |
| ProcessData.Process | data/process_data.py:76-79 | the pipeline succeeds exactly when both steps do; its leading columns contain neither `id` nor `categories` |
| ProcessData.SplitTwoTokens | data/process_data.py:33 | a string of two semicolon-free tokens splits into those two |
| ProcessData.LoadOneMessage | data/process_data.py:20 | one message with one matching categories row merges into one row of message and category string |
| ProcessData.OneMessageSplit | data/process_data.py:33 | the category string `related-2;offer-2` expands into two cells |
| ProcessData.OneMessageDecode | data/process_data.py:40-50 | those cells become columns `related` and `offer` holding 1 and 2 |
| ProcessData.CleanOneMessage | data/process_data.py:33-57 | clean_data on that row gives `message, related, offer` = `help, 1, 2` |
| ProcessData.ProcessOneMessage | data/process_data.py:76-79 | end to end: `related-2` becomes 1 while `offer-2` stays 2 |
| ProcessData.MatchingAllThree | data/process_data.py:20 | three categories rows with the message's key all match it |
| ProcessData.BlockOfThree | data/process_data.py:20 | a message with three matching categories rows yields three merged rows |
| ProcessData.JoinManyToMany | data/process_data.py:20 | two messages against three categories rows with the same id merge into six rows |
| ProcessData.LoadManyToMany | data/process_data.py:20 | 2 messages and 3 categories rows sharing one id give 6 rows, more than the 5 input rows |
| ProcessData.JoinUnmatched | data/process_data.py:20 | the unmatched second message is merged with a missing category string |
| ProcessData.LoadUnmatchedMessage | data/process_data.py:20 | a message without a categories row is kept, with a missing category string |
| ProcessData.UnmatchedSplit | data/process_data.py:33 | the category column of that table splits into one column, missing in the second row |
| ProcessData.CleanUnmatchedMessage | data/process_data.py:48 | clean_data on that table fails converting the `related` column |
| ProcessData.ProcessUnmatchedMessage | data/process_data.py:48 | that missing category string makes clean_data fail at the integer conversion of `related` |
| ProcessData.CategoriesOnRightSide | data/process_data.py:20 | when the messages file has no `categories` label, none of the message-side output labels is `categories`, `_x` suffixes included |
| ProcessData.ProcessFailsOnUnmatchedMessage | data/process_data.py:20-48 | whenever some message has no categories row and the messages file has no `categories` column, the pipeline fails |

## Left out

- CSV reading (`pd.read_csv`, lines 17-18) is left out. Both files are taken as already-parsed tables with distinct labels; `read_csv` renames repeated headers, so they always are distinct. That is the only requirement `Loading.LoadData` places on its inputs besides rectangularity.
- `save_data` (lines 62-66) is left out: it is an SQLite write through SQLAlchemy.
- `main` is left out: the argument count check, the printing and the file paths. Only its two calls are modelled (`ProcessData.Process`).
- `models/train_classifier.py` is not part of this model. It is NLTK tokenising, scikit-learn training and grid search, and joblib output.
- Loading.Merge: pandas' refusal to create a duplicate label when a suffixed name collides with an existing one (a MergeError in recent versions) is not modelled.
- Loading.Merge: key dtypes are not modelled. Keys are compared as cells, and a missing key matches a missing key, as pandas does.
- CategoryString.DigitValue: only the ASCII digits 0-9 are modelled. Python's `int()` also accepts other Unicode decimal digits.
- Cleaning.Frame.ColumnAsInt: the exception pandas raises on a failed conversion becomes a `false` result that leaves the frame unchanged. `CleanData` turns it into an error result.
- Cleaning.CleanData: the two frames are taken to share the merge's row index, so `pd.concat` pairs rows by position. Index alignment for other indexes is not modelled.
- Cell types beyond string, integer and missing value (floats, booleans) are not modelled. The distinction between exception types is reduced to the five error kinds of `CleanError`.
