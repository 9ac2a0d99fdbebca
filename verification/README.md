# global-dialogues-viz: the CSV simplifier, in Dafny

This project models the data-cleanup core of `global-dialogues-viz`. That core is
`simplify_csv`. It takes the survey table parsed from the Global AI Dialogues
participants CSV and does four things:

- it resolves the requested question columns into present and missing ones;
- it fails when none is present;
- it projects the table onto the present columns, in requested order;
- it keeps a prefix of the rows when a positive row limit is given, and rewrites the
  mapped columns with per-cell text functions.

The model also covers the sentiment classifier `simplify_sentiment`, the
participants configuration that plugs that classifier into `simplify_csv`, and the
command line's `get_log_level`.

Everything is pure and functional:

- `Table(header, rows)` has rows of `Option<string>` cells. `None` is a CSV field
  that pandas reads as NaN.
- A run of `simplify_csv` is a `Run`. It holds the present list, the missing list,
  the logged "similar column" hints and a `Result` that is either the output table
  or `NoTargetColumnsFound` (the `ValueError` of line 70).
- The `column_transformations` dict is a sequence of `(name, function)` entries with
  distinct names, taken in the dict's order.

Files, one module each:

| file | module | models |
|---|---|---|
| wrappers.dfy | `Wrappers` | `Option`, `Result` |
| strings.dfy | `Strings` | `str.lower()` and the substring test `in` |
| tables.dfy | `Tables` | the DataFrame as header plus rows, lookup by column name |
| column_resolution.dfy | `ColumnResolution` | present/missing split and similar-name hints |
| csv_cleanup.dfy | `CsvCleanup` | selection, truncation, transformation, the whole run |
| sentiment.dfy | `Sentiment` | `simplify_sentiment` |
| sentiment_examples.dfy | `SentimentExamples` | the examples of `test_simplify_sentiment` |
| participants.dfy | `Participants` | `TARGET_COLUMNS`, `COLUMN_TRANSFORMATIONS` and their use |
| cleanup_examples.dfy | `CleanupExamples` | the scenarios of the `simplify_csv` tests |
| log_level.dfy | `LogLevel` | `get_log_level` |

## Model

| member | source | states |
|---|---|---|
| Strings.Lower | src/global_dialogues_viz/gd_csv_cleanup.py:111 | lower-casing keeps the length and maps each character on its own |
| Strings.LowerMeaning | src/global_dialogues_viz/gd_csv_cleanup.py:111 | a lower-cased string has no upper-case ASCII letter left, and every other character, non-ASCII capitals included, stays where it was |
| Strings.ContainsIffOccurs | src/global_dialogues_viz/gd_csv_cleanup.py:64 | `needle in hay` holds exactly when `needle` occurs at some offset of `hay` |
| Sentiment.SimplifySentiment | src/global_dialogues_viz/gd_csv_cleanup.py:110-118 | total; the result is always one of "excited", "concerned", "neutral", ""; the empty answer gives "" |
| Sentiment.SentimentByOccurrence | src/global_dialogues_viz/gd_csv_cleanup.py:110-118 | first match wins: each label is chosen exactly when its phrase occurs in the lower-cased answer and no earlier phrase does; "" exactly when none occurs |
| Sentiment.SentimentIgnoresCase | src/global_dialogues_viz/gd_csv_cleanup.py:111-115 | answers that lower-case alike get the same label; an answer and its lower-cased form agree |
| Sentiment.ExcitedAnywhere | src/global_dialogues_viz/gd_csv_cleanup.py:111-112 | "more excited" anywhere inside any text makes it "excited" |
| SentimentExamples.ExcitedExamples | src/global_dialogues_viz/gd_csv_cleanup.py:168-169 | "more excited" and "MORE EXCITED" are "excited" |
| SentimentExamples.ConcernedExamples | src/global_dialogues_viz/gd_csv_cleanup.py:170-171 | "more concerned" and "MORE CONCERNED" are "concerned" |
| SentimentExamples.NeutralExamples | src/global_dialogues_viz/gd_csv_cleanup.py:172-173 | "equally" and "EQUALLY" are "neutral" |
| SentimentExamples.UnmatchedExamples | src/global_dialogues_viz/gd_csv_cleanup.py:174-175 | "something else" and "" get "" |
| ColumnResolution.Present | src/global_dialogues_viz/gd_csv_cleanup.py:48-50 | the present list is no longer than the request, and each of its names was requested and is in the header |
| ColumnResolution.Missing | src/global_dialogues_viz/gd_csv_cleanup.py:48-52 | the missing list is no longer than the request, and each of its names was requested and is not in the header |
| ColumnResolution.ResolveColumns | src/global_dialogues_viz/gd_csv_cleanup.py:45-52 | the loop yields exactly the filter of the request by header membership (present) and its complement (missing) |
| ColumnResolution.ResolveStep | src/global_dialogues_viz/gd_csv_cleanup.py:49-52 | one more requested name extends exactly one of the two lists, by that name |
| ColumnResolution.ResolveSplits | src/global_dialogues_viz/gd_csv_cleanup.py:48-52 | both lists are order-preserving filters: resolving `a + b` gives the results for `a` followed by those for `b` |
| ColumnResolution.ResolveMembers | src/global_dialogues_viz/gd_csv_cleanup.py:48-52 | a name is present iff it was requested and is in the header, and missing iff it was requested and is not |
| ColumnResolution.ResolvePartitions | src/global_dialogues_viz/gd_csv_cleanup.py:45-52 | present and missing partition the request: as multisets they add up to it, and their lengths sum to its length |
| ColumnResolution.ResolveExtremes | src/global_dialogues_viz/gd_csv_cleanup.py:48-52 | all requested names found gives present = request and missing empty; none found gives the reverse |
| ColumnResolution.SimilarColumns | src/global_dialogues_viz/gd_csv_cleanup.py:61-65 | the suggestions are exactly the header names similar to the missing name (case-insensitive containment either way) |
| ColumnResolution.SimilarByOccurrence | src/global_dialogues_viz/gd_csv_cleanup.py:61-65 | `c` is suggested for `m` iff `c` is a header name and, lower-cased, one occurs inside the other at some offset |
| ColumnResolution.CaseVariantSuggested | src/global_dialogues_viz/gd_csv_cleanup.py:64 | a header name equal to the missing name up to case, or extending it, is always suggested |
| ColumnResolution.Hints | src/global_dialogues_viz/gd_csv_cleanup.py:59-67 | one hint per missing name that has a similar column, and only for those; each lists all its similar columns |
| ColumnResolution.HintsAreNotMatches | src/global_dialogues_viz/gd_csv_cleanup.py:56-67 | a hinted column is a header name and differs from the missing name it is hinted for |
| CsvCleanup.Select | src/global_dialogues_viz/gd_csv_cleanup.py:73 | the header becomes the given columns, in the given order; row count kept; every cell is the source cell of the same row under the same column name |
| CsvCleanup.Truncate | src/global_dialogues_viz/gd_csv_cleanup.py:75-78 | rows are a prefix of the input; `min(N, M)` of them for a limit `N > 0`; the table is unchanged for a limit of 0 or less |
| CsvCleanup.FindTransform | src/global_dialogues_viz/gd_csv_cleanup.py:82-83 | a column has no transform exactly when no mapping entry is named after it; a transform found is the function of an entry named after the column, and with distinct keys it is the function of every such entry |
| CsvCleanup.ApplyOne | src/global_dialogues_viz/gd_csv_cleanup.py:82-86 | one entry rewrites exactly the cells of the column it names, each to the function of its text with an empty cell read as ""; header, row count and every other cell stay |
| CsvCleanup.ApplyTransforms | src/global_dialogues_viz/gd_csv_cleanup.py:81-86 | running the entries in order equals rewriting each cell by its own column's function; header, row count and unmapped columns unchanged |
| CsvCleanup.SimplifyCsv | src/global_dialogues_viz/gd_csv_cleanup.py:45-86 | the present and missing lists are the filters of the request; the logged hints are `Hints` of the missing list against the header; the run fails iff no requested name is in the header; otherwise the output header is the present list and the row count is `min(N, M)` for `N > 0` and `M` otherwise |
| CsvCleanup.OutputCellSource | src/global_dialogues_viz/gd_csv_cleanup.py:73-86 | output row `i` is input row `i`; its cell under `c` is the input's cell under `c`, through `c`'s transform if mapped |
| CsvCleanup.NoTransformKeepsCells | src/global_dialogues_viz/gd_csv_cleanup.py:73-78 | without transforms every output cell equals the input cell of the same row and column |
| CsvCleanup.AllPresentKeepsCells | src/global_dialogues_viz/gd_csv_cleanup.py:48-78 | with every requested name in the table and no mapping, nothing is missing, the run succeeds, the header is the request, and every kept cell is the input's |
| CsvCleanup.FindIgnoresOtherKeys | src/global_dialogues_viz/gd_csv_cleanup.py:82-83 | mapping entries for other names, inserted anywhere (before, between or after the others), do not change a column's transform |
| CsvCleanup.UnusedTransformsIgnored | src/global_dialogues_viz/gd_csv_cleanup.py:81-86 | mapping entries for columns the selected table lacks have no effect wherever they sit in the dict; dropping them keeps the keys distinct |
| CsvCleanup.MissingTargetsDoNotChangeOutcome | src/global_dialogues_viz/gd_csv_cleanup.py:48-73 | inserting names the table lacks anywhere into the request leaves the output (or the error) unchanged |
| Participants.SentimentOnly | src/global_dialogues_viz/gd_csv_cleanup.py:133-135 | the configured mapping rewrites the sentiment question with `simplify_sentiment` and nothing else |
| Participants.ParticipantsOutput | src/global_dialogues_viz/gd_csv_cleanup.py:153-155 | each sentiment cell of the participants output is the label of the input answer, so one of the four labels; every other cell is the input's |
| CleanupExamples.BasicSelection | tests/test_data_cleanup.py:12-39 | Name, Age, Country from a four-column table: that header, 3 rows, cells from the input |
| CleanupExamples.MissingColumnDropped | tests/test_data_cleanup.py:47-70 | Country is reported missing; output header is Name, Age with 2 rows |
| CleanupExamples.NoTargetColumns | tests/test_data_cleanup.py:78-96 | Country and Phone both absent: the run fails with the no-columns error |
| CleanupExamples.RowLimit | tests/test_data_cleanup.py:105-133 | a limit of 3 on 5 rows gives header Header1, Header2 and the first 3 rows, every cell the input's |
| CleanupExamples.NoRowLimit | tests/test_data_cleanup.py:136-166 | a limit of 0 on 5 rows gives header Header1, Header2 and all 5 rows, every cell the input's |
| LogLevel.GetLogLevel | src/global_dialogues_viz/global_dialogues_viz.py:50-58 | "error" iff quiet; "info" iff verbose and not quiet; "debug" iff debug is the only flag set; "warning" iff no flag is set |

## Left out

- Reading the CSV (lines 26-40): the metadata sniffing for leading rows to skip, pandas' parser, the dropping of malformed lines and the replacement of undecodable bytes are library behaviour. The parsed table is the model's input.
- Writing the CSV (line 107): quoting and serialisation by `to_csv`. The model's output is the table that gets written.
- pandas type inference: cells stay text. pandas reads numeric columns as numbers, and a numeric column with empty cells as floats, so `astype(str)` can give "25.0" where the file said "25".
- Logging (lines 26-42, 54, 57, 67, 77, 84-104): value counts and the non-null percentages are observability only and use floating-point division. Only the similar-column hints are modelled, because a property is stated about them.
- Strings.Lower, Strings.LowerMeaning: lower-cases ASCII letters only. Python's `str.lower` also lower-cases other Unicode letters, and can lengthen a string. The sentiment question's name ends in "…" (U+2026), which both leave alone. Python maps only two non-ASCII characters to ASCII letters, U+0130 (to "i" plus a combining dot) and U+212A (to "k"); neither can complete "more excited", "more concerned" or "equally", so no sentiment label differs. The gap is confined to similar-column hints for names with non-ASCII letters.
- CsvCleanup.ApplyTransforms: a transform is a total Dafny function. A Python callable that raises is not modelled.
- CsvCleanup.SimplifyCsv: repeated requested names are kept twice, as pandas does for `df[list]`. With a repeated column, `filtered_df[column_name]` at line 85 is a DataFrame, and `.apply` at line 86 hands the function each copy as a Series, so `simplify_sentiment` raises `AttributeError` at `value.lower()` (line 111) and nothing is written. The model instead applies the function to every cell of every copy and returns `Ok`.
- LogLevel.GetLogLevel: takes the three switches as a record instead of an `argparse.Namespace`.
- `gd_csv_simplify_participants`, `create_viz`, `add_general_flags` and `main`: workspace, runtime, embedding, graph-view and argument-parsing plumbing around foreign libraries. Only the call at lines 153-155 is modelled, by `Participants.ParticipantsOutput`.
- The tests import `global_dialogues_viz.data_cleanup`, which is not part of this model. They are read as tests of `simplify_csv` in `gd_csv_cleanup.py`.
- The scenario lemmas in `CleanupExamples` state the header, the row counts and, for the selection and row-limit scenarios, that every output cell equals the input cell of the same row and column; the literal values follow from the input table rather than being spelled out. Their tables are parameters equal to the literals, because unfolding the recursive definitions on literal data exhausts the solver.
