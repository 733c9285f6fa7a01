# IMDB sentiment pipeline: validation and preprocessing stages

This project models two stages of a sentiment-classification pipeline over a
table of movie reviews, and proves properties of them in Dafny.

- **Validation** (`DataValidation.run`, `src/data_validation.py`). The stage reads a
  table and applies two fatal gates. A missing expected column raises
  `ValueError("Schema Validation failed")`. An empty table raises
  `ValueError("No rows found in dataset")`. Two further checks look at the null
  count of each column and at the number of rows whose review repeats an
  earlier one. Their findings are only logged as warnings. The duplicate
  check reads the `review` column, so a table
  without one raises a `KeyError` there. A table that passes is written out unchanged.
- **Preprocessing** (`DataPreprocessing.run` and `clean_text`,
  `src/data_preprocessing.py`). The stage changes the frame step by step:
  - `df` is rebound to the frame without the rows lacking a review or a sentiment (`dropna`);
  - `df` is rebound to the frame without whole-row duplicates, the first one kept (`drop_duplicates`);
  - the column `clean_review`, the review passed through `clean_text`, is assigned in place;
  - the column `label` is assigned in place: `positive` becomes 1, `negative` becomes 0 and anything else becomes missing.
- **`clean_text`**. It expands contractions, lower-cases, and replaces each
  HTML-like tag `<...>` by a space. It then replaces every character that is
  neither `a`-`z` nor whitespace by a space. Finally it collapses each whitespace
  run into one space and trims both ends.

Modules:
- `wrappers.dfy`: `Option`, `Result` and `Outcome`.
- `data_frame.dfy`: the part of a pandas DataFrame the stages use. A `Table`
  value has column names and rows; a row maps column names to cells. `Column`
  is `df[column]`, the cells of one column row by row, which the cleaned-text
  column and the duplicate count read. The `Frame` class is the DataFrame
  variable of `run`: its methods replace its rows (the rebinding of `df`) or
  assign a column.
- `text_clean.dfy`: `clean_text`, one function per regular-expression step.
  The tag substitution is built on `Segments`, the pieces `<.*?>` splits a text
  into. `SegmentsCharacterised` pins it down independently: it is the one split
  that spells the text out again and obeys the matching rules (`Matched`).
  The whitespace step is compared with a reference definition, `Words`/`JoinWords`
  for `" ".join(s.split())`.
- `preprocessing.dfy`: `Preprocess` is the table `run` writes out, or the
  error it raises. `Run` is the method on a `Frame`, proved equal to it.
- `validation.dfy`: `Validate`, the outcome of `run`, with its warnings.

The main results are these:
- The cleaned text uses only `a`-`z` and single inner spaces (`NormalizeNormalized`).
- The cleaner is idempotent (`NormalizeIdempotent`).
- The cleaned text keeps exactly the letters outside tags (`NormalizeKeepsLetters`).
- Collapsing whitespace equals `" ".join(s.split())` (`CollapseIsJoinWords`).
- Removing tags is idempotent and leaves no tag behind (`StripTagsIdempotent`, `StripTagsLeavesNoTag`).
- The method `Run` computes `Preprocess`, whose rows are characterised cell by cell (`PreprocessRows`, `PreprocessCells`).
- The surviving rows are distinct and keep first-appearance order (`SurvivorsSpec`).
- Validation outcomes and warnings are characterised exactly (`Validate`, `NullWarning`, `DuplicateWarning`).

## Model

| member | source | states |
|---|---|---|
| TextClean.Lower | src/data_preprocessing.py:17 | the length is kept; no A-Z remains; A-Z move to a-z by +32; every other character is unchanged |
| TextClean.TagBodyLengthSpec | src/data_preprocessing.py:18 | a tag ends at the first '>' when no newline comes before it; there is no tag when every '>' has a newline before it (`.` skips newlines, `.*?` is lazy) |
| TextClean.SegmentsTagBodies | src/data_preprocessing.py:18 | every tag found is a shortest match: its body holds no '>' and no newline |
| TextClean.TagBodyLengthOfTag | src/data_preprocessing.py:18 | a shortest tag body followed by '>' is found as a tag, whatever follows it |
| TextClean.SegmentsMatched | src/data_preprocessing.py:18 | the pieces found obey the matching rules: shortest tag bodies, and a '<' left alone opens no tag in the text after it |
| TextClean.SegmentsUnique | src/data_preprocessing.py:18 | any split into pieces that obeys the matching rules is the matcher's split of the text it spells out |
| TextClean.SegmentsCharacterised | src/data_preprocessing.py:18 | a split is the matcher's split of `s` iff it spells out `s` and obeys the matching rules (leftmost-first, shortest matches) |
| TextClean.SegmentsRender | src/data_preprocessing.py:18 | the tags and characters the matcher splits a text into spell out the text again |
| TextClean.StripTagsPerSegment | src/data_preprocessing.py:18 | the substitution puts one space per tag and keeps every other character in place |
| TextClean.UnclosedStaysUnclosed | src/data_preprocessing.py:18 | a '<' that opens no tag still opens none after the substitution |
| TextClean.StripTagsLeavesNoTag | src/data_preprocessing.py:18 | after the substitution no `<...>` match is left |
| TextClean.StripTagsWithoutTag | src/data_preprocessing.py:18 | a text without a tag passes through unchanged |
| TextClean.StripTagsIdempotent | src/data_preprocessing.py:18 | removing tags twice is the same as removing them once |
| TextClean.StripTagsLetters | src/data_preprocessing.py:18 | the letters that remain are exactly the letters outside the tags |
| TextClean.KeepLetters | src/data_preprocessing.py:19 | the length is kept; a-z and whitespace stay; every other character becomes ' ' |
| TextClean.KeepLettersLetters | src/data_preprocessing.py:19 | the letters are unchanged |
| TextClean.StripLeftSpec | src/data_preprocessing.py:20 | `lstrip` drops exactly the leading whitespace |
| TextClean.StripRightSpec | src/data_preprocessing.py:20 | `rstrip` drops exactly the trailing whitespace |
| TextClean.StripRightNonSpace | src/data_preprocessing.py:20 | `rstrip` keeps every non-whitespace character |
| TextClean.StripIsStretch | src/data_preprocessing.py:20 | `strip` returns a contiguous stretch of the input with whitespace only around it and no whitespace at its ends; it keeps every non-whitespace character |
| TextClean.SqueezeSpacing | src/data_preprocessing.py:20 | after `\s+` → ' ', the only whitespace is ' ' and never two in a row |
| TextClean.SqueezeNonSpace | src/data_preprocessing.py:20 | squeezing keeps the non-whitespace characters in order |
| TextClean.SqueezeSkipRun | src/data_preprocessing.py:20 | a whitespace run becomes one space, or merges into the one before |
| TextClean.SqueezeWordFirst | src/data_preprocessing.py:20 | a leading word passes through squeezing untouched |
| TextClean.WordLength | src/data_preprocessing.py:20 | the length of the maximal leading run of non-whitespace |
| TextClean.CollapseSkipLead | src/data_preprocessing.py:20 | leading whitespace does not change the collapsed text |
| TextClean.CollapseLastWord | src/data_preprocessing.py:20 | a word followed only by whitespace collapses to the word |
| TextClean.CollapseNextWord | src/data_preprocessing.py:20 | a word, whitespace and more text collapse to the word, one space and the rest collapsed |
| TextClean.CollapseIsJoinWords | src/data_preprocessing.py:20 | `re.sub(r"\s+", " ", s).strip()` equals `" ".join(s.split())` for every string |
| TextClean.SqueezeUnchanged | src/data_preprocessing.py:20 | a text already single-spaced with ' ' is not changed by squeezing |
| TextClean.StripUnchanged | src/data_preprocessing.py:20 | a text with no whitespace at either end is not changed by `strip` |
| TextClean.LowerUnchanged | src/data_preprocessing.py:17 | a text without A-Z is not changed by lower-casing |
| TextClean.KeepLettersUnchanged | src/data_preprocessing.py:19 | a text of letters and whitespace is not changed |
| TextClean.CollapseNormalized | src/data_preprocessing.py:19-20 | collapsing letters and whitespace gives a normalised text with the same non-whitespace characters |
| TextClean.NormalizeNormalized | src/data_preprocessing.py:17-20 | the output has only a-z and ' ', never two spaces in a row and no space at either end |
| TextClean.NormalizeKeepsLetters | src/data_preprocessing.py:17-20 | the output without its spaces is exactly the letters outside tags of the lower-cased input |
| TextClean.NormalizeEmpty | src/data_preprocessing.py:17-20 | the output is empty iff no letter stands outside the tags |
| TextClean.FirstStepsFix | src/data_preprocessing.py:17-19 | lower-casing, tag removal and the character filter leave a normalised text unchanged |
| TextClean.CollapseFixes | src/data_preprocessing.py:20 | collapsing leaves a normalised text unchanged |
| TextClean.NormalizeFixes | src/data_preprocessing.py:17-20 | a normalised text is its own normal form |
| TextClean.NormalizeIdempotent | src/data_preprocessing.py:17-20 | cleaning after contraction expansion is idempotent |
| DataFrame.MissingColumns | src/data_validation.py:21 | the expected names that are absent, and only those |
| DataFrame.MissingColumnsAppend | src/data_validation.py:21 | the missing names keep the order of the expected list |
| DataFrame.CountDuplicatedDistinct | src/data_validation.py:37 | `duplicated().sum()` is the row count less the count of distinct values |
| DataFrame.KeepFirst | src/data_preprocessing.py:38 | `drop_duplicates` keeps every value once, and nothing else |
| DataFrame.KeepFirstOrder | src/data_preprocessing.py:38 | the kept rows are in the order of their first appearance |
| DataFrame.DropNulls | src/data_preprocessing.py:36 | the kept rows are exactly the rows with a value in every column of the subset |
| DataFrame.DropNullsAppend | src/data_preprocessing.py:36 | `dropna` keeps the rows' order |
| DataFrame.DropNullsFirstIndex | src/data_preprocessing.py:36 | of two kept rows, the one whose first appearance comes first among the kept rows also appears first in the input |
| DataFrame.WithColumn | src/data_preprocessing.py:43 | assigning a column keeps the existing columns in place and adds the name at the end if it is new |
| DataFrame.SetColumn | src/data_preprocessing.py:43 | each row gets its value in the assigned column and keeps every other cell |
| DataFrame.SetColumnWellFormed | src/data_preprocessing.py:43-46 | column assignment keeps the column names unique and every row matching them |
| DataFrame.Frame.DropNa | src/data_preprocessing.py:36 | on an absent column the method fails with the missing names and changes nothing; otherwise the rows become the filtered rows |
| DataFrame.Frame.DropDuplicates | src/data_preprocessing.py:38 | the rows become the first occurrences |
| DataFrame.Frame.Assign | src/data_preprocessing.py:43 | the columns and rows become those after the assignment |
| Preprocessing.EncodeLabel | src/data_preprocessing.py:46 | 1 iff "positive", 0 iff "negative", missing iff anything else |
| Preprocessing.Digits | src/data_preprocessing.py:43 | `str(n)` of a natural number is a decimal numeral: digits only, no leading zero |
| Preprocessing.DigitsRoundTrip | src/data_preprocessing.py:43 | the numeral reads back as the number it was written from |
| Preprocessing.AsText | src/data_preprocessing.py:43 | `astype(str)` keeps a string, writes "nan" for a missing cell, and writes an integer as a '-' exactly when it is negative followed by a numeral that reads back as its magnitude |
| Preprocessing.CleanColumn | src/data_preprocessing.py:43 | every row gets one string, `clean_text` of its review as text, and that string is normalised |
| Preprocessing.LabelColumn | src/data_preprocessing.py:46 | every row gets the encoding of its sentiment, which is 1, 0 or missing |
| Preprocessing.Preprocess | src/data_preprocessing.py:31-50 | fails with a KeyError naming the absent columns iff review or sentiment is absent; otherwise gives the input columns plus `clean_review` and `label`, one row per survivor |
| Preprocessing.Run | src/data_preprocessing.py:31-50 | the frame ends as `Preprocess` of the frame read, or is unchanged with the same error |
| Preprocessing.PreprocessRows | src/data_preprocessing.py:36-46 | output row i is survivor i plus its cleaned review and label, with every other cell unchanged |
| Preprocessing.PreprocessCells | src/data_preprocessing.py:36-46 | every output row has a review and a sentiment, a normalised `clean_review`, and a label of 1, 0 or missing |
| Preprocessing.SurvivorsSpec | src/data_preprocessing.py:36-38 | the survivors are distinct; they are exactly the input rows with both values; they are in the order of their first appearance in the input |
| Preprocessing.PreprocessDistinct | src/data_preprocessing.py:38-46 | without pre-existing `clean_review`/`label` columns, no two output rows are equal |
| Preprocessing.PreprocessWellFormed | src/data_preprocessing.py:43-46 | a well-formed input table gives a well-formed output table |
| Validation.NullCount | src/data_validation.py:32 | a column's null count is at most the row count, and zero iff no cell is missing |
| Validation.NullCountCells | src/data_validation.py:32 | the null count is the number of missing cells in the column |
| Validation.NullCounts | src/data_validation.py:32-33 | `isna().sum()` gives one count per column, in column order; `null_counts.any()` holds iff some cell of some column is missing |
| Validation.Validate | src/data_validation.py:16-44 | fails with the schema error if an expected column is missing, else with the empty error if there are no rows, else with a KeyError naming `review` if that column is absent; it passes iff all columns are present, there are rows and a review column exists; a passed table is unchanged and carries the warnings of checks 3 and 4 |
| Validation.WarningsNeverFail | src/data_validation.py:21-39 | tables with the same column names that agree on whether they have rows both pass or both fail with the same error: nulls and duplicates never decide the outcome |
| Validation.RevalidatePasses | src/data_validation.py:42-43 | validating the written table again passes with the same result |
| Validation.NullWarning | src/data_validation.py:32-34 | the null warning is logged iff some cell is missing |
| Validation.DuplicateWarning | src/data_validation.py:37-39 | the duplicate count is the rows less the distinct reviews; the warning is logged iff two rows share a review |

## Left out

- Contraction expansion (line 16) belongs to the third-party `contractions` library, which is not part of this model. `CleanText` takes it as a parameter `fix`. `NormalizeIdempotent` covers the steps after it, because `fix` itself need not be idempotent.
- TextClean.Lower: only A-Z are lower-cased. Python's `str.lower` also maps characters such as U+0130 and the Kelvin sign U+212A to ASCII letters, which the character filter would then keep. Any other non-ASCII letter becomes a space at line 19 either way.
- Reading and writing CSV files (`read_csv`, `to_csv`), `os.makedirs` and logging are I/O and are left out. The stages work on a `Table` value. The index column that the preprocessing `to_csv` call writes is not modelled.
- Preprocessing.EncodeLabel: pandas stores the label column as floats (1.0, 0.0, NaN) when a value is missing; the model keeps integers and a missing cell.
- Cells hold strings, integers or a missing value. Floating-point cells are not modelled; `astype(str)` is modelled for those three kinds only (`AsText`).
- Validation: the content of the null-count warning is the per-column counts; the message text and its formatting are left out.
- Validation.Validate: warnings are returned only with a passed table. When there is no `review` column, the null warning logged before the `KeyError` at line 37 of `src/data_validation.py` is not modelled.
- The other stages (ingestion, split, feature engineering, model building, evaluation) and the logger are not part of this model.
- DataFrame.Frame.DropNa and DataFrame.Frame.DropDuplicates: pandas returns a new frame that `df` is rebound to; the model replaces the rows of the one `Frame` instead. Nothing else holds the old frame in `run`, so only that aliasing is not captured.
