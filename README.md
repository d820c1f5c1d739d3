# Evaluation-metrics normalization pipeline in Dafny

This project models the normalization pipeline of a dashboard for comparing
speech-recognition model runs by word error rate (WER) and BLEU score. It
covers three parts:

- **Record extraction and dataset building** (`preprocessing_module.py`).
  Each `.csv` file in a directory holds `metric,value` rows. They become one
  record: a dict from metric name to float, plus a `run_id` made of the file
  name without its extension, `_`, and the SHA-1 hex digest of the file name.
- **Identifier shortening** (`run_id_utility.py`). The requested
  `hash_length` must lie between 6 and 8. A `run_id` whose hash suffix (the
  text after its last `_`) is longer than `hash_length` has that suffix cut
  to its first `hash_length` characters; a shorter or equal suffix is kept
  as it is. Each record is rebuilt with only `run_id`, `wer` and `bleu`.
- **The query responder** (`chat_analysis.py`). A lower-cased question is
  routed by keyword to one of four answers. The "best model" and "worst
  model" answers are computed from the rows of the dataset. The trade-off
  answer is a fixed text, or "N/A" for an empty dataset. Any other question
  gets a fixed help text.

Modules:

- `Text` (`text.dfy`): the string functions of Python's `str` that the code
  relies on. These are `startswith`/`endswith`, `in`, `lower`, `split` and
  `join` on a one-character separator, and `rfind`.
- `Records` (`records.dfy`): a record is a `map<string, Value>`, like the
  dict it models. Each modelled exception is an `Error` carried in a
  `Result`; the exceptions that are not modelled are listed under
  "Left out".
- `RunIdUtility` (`run_id_utility.dfy`): `ShortenRunIdHash` is the loop as
  written. It is proved equal to the recursive specification `ShortenAll`,
  and the shortening properties are lemmas about `ShortenAll`.
- `Preprocessing` (`preprocessing.dfy`): `ParseCsvToRecord` and
  `ProcessAllCsvs` are the two loops as written. They are proved equal to
  `ExtractRecord` and `BuildDataset`, which the lemmas are about.
- `ChatAnalysis` (`chat_analysis.dfy`): the four answer functions, which are
  pure in the source.
- `Pipeline` (`pipeline.dfy`): properties that connect the extractor and the
  shortener.

The outside world enters as parameters:

- `read` (the rows of the file at a path);
- the directory `listing`;
- `toFloat` (Python's `float()` on a string, `None` where it raises);
- `sha1` (`hashlib.sha1(name.encode()).hexdigest()`);
- `format` (`f"{x:.Nf}"`).

The DataFrame of the query responder is its sequence of rows, `seq<Run>`.

Error handling and uniqueness:

- The code raises Python's built-in exceptions. The modelled errors are:
  - `ValueError` for a hash length outside [6, 8] (`HashLengthOutOfRange`);
  - `KeyError` for a missing dict key or CSV column (`MissingKey`);
  - `AttributeError` when a `run_id` is not a string (`RunIdNotText`);
  - `ValueError` from `float()` (`NotAFloat`).
- The code performs no uniqueness check after shortening, and so raises no
  collision error. Two records can end up with the same shortened `run_id`.
  `ShortenKeepsCollisions` proves this for two run_ids with the same model
  name whose hashes are distinct, contain no `_`, are both longer than
  `hash_length`, and share their first `hash_length` characters.
  `BuiltRunIdsDistinct` shows the build itself yields distinct run_ids as
  long as the digests differ.

## Model

| member | source | states |
|---|---|---|
| Text.Split | run_id_utility.py:21 | `split` on a one-character separator returns at least one piece, and no piece holds the separator |
| Text.JoinSplit | run_id_utility.py:21-22 | joining the pieces of a split with the separator gives back the original string; with the ensures of `Split` this fixes the pieces exactly |
| Text.SplitWithoutSep | run_id_utility.py:21 | a string without the separator splits into itself alone |
| Text.SplitAroundLast | run_id_utility.py:21 | splitting `a + sep + b`, with no separator in `b`, is splitting `a` and appending `b` |
| Text.SplitCount | run_id_utility.py:21 | a string holds the separator exactly when it splits into two or more pieces |
| Text.Join | run_id_utility.py:22 | `sep.join(parts)`: the pieces with the separator between each two; its relation to `Split` is stated by JoinSplit and JoinLast |
| Text.JoinLast | run_id_utility.py:22 | joining two or more pieces is joining all but the last, the separator, and the last |
| Text.ContainsTransitive | chat_analysis.py:40 | a string containing `outer` contains every substring of `outer` |
| Text.EndsWith | preprocessing_module.py:43 | `str.endswith`: the suffix is the final `|suffix|` characters; used by the `.csv` filter, whose behaviour CsvNames and CsvNamesMembers state |
| Text.Contains | chat_analysis.py:36-40 | Python's substring test `part in s`: `part` occurs at some offset; its use in the router is stated by RoutePriority and TradeoffPhraseSubsumed |
| RunIdUtility.HashOf | run_id_utility.py:21-23 | the hash part, `run_id.split("_")[-1]`, never contains `_` |
| RunIdUtility.ModelNameOf | run_id_utility.py:21-22 | a run_id containing `_` is its model name, `_`, and its hash; one without `_` has the empty model name and is all hash |
| RunIdUtility.SplitAtLast | run_id_utility.py:21-23 | with a `_`, the run_id is the pieces of its split but the last joined by `_`, then `_`, then the last piece; without one, the split is the run_id alone |
| RunIdUtility.SplitsBack | run_id_utility.py:21-23 | `model + "_" + hash` with no `_` in the hash splits back into exactly that model name (underscores included) and that hash |
| RunIdUtility.ShortenId | run_id_utility.py:21-29 | when the old hash is longer than `hash_length`, the new run_id is the model name, `_`, and the hash's first `hash_length` characters; otherwise it is the old run_id unchanged; either way the model name is kept and the new hash is that cut |
| RunIdUtility.ShortenIdTwice | run_id_utility.py:25-29 | cutting a run_id to n and then to m gives the cut to min(n, m) |
| RunIdUtility.ShortenRecord | run_id_utility.py:20-35 | one record succeeds exactly when it has a string `run_id`, a `wer` and a `bleu`; a missing `run_id` raises `KeyError('run_id')`, then a non-string `run_id` raises, then a missing `wer` raises `KeyError('wer')`, then a missing `bleu` raises `KeyError('bleu')`; the output has exactly the keys `run_id`, `wer`, `bleu`, with the metrics copied and the shortened run_id |
| RunIdUtility.ShortenEachSucceeds | run_id_utility.py:19-35 | the loop succeeds exactly when every record can be shortened |
| RunIdUtility.ShortenEach | run_id_utility.py:18-36 | the `for` loop over the records, stopping at the first record whose lookup raises; it has no contract of its own: its meaning is stated by ShortenEachSucceeds, ShortenEachLength and ShortenEachAt |
| RunIdUtility.ShortenEachStep | run_id_utility.py:19-35 | the loop over one more record succeeds when it did on the earlier ones and the new record can be shortened |
| RunIdUtility.AllShortenableSnoc | run_id_utility.py:19-35 | every record of `init + [last]` can be shortened exactly when every record of `init` and `last` can |
| RunIdUtility.ShortenEachSnoc | run_id_utility.py:31-35 | a successful loop's output is the earlier output with the last record's rebuilt record appended |
| RunIdUtility.ShortenEachLength | run_id_utility.py:18-36 | on success there is one output record per input record |
| RunIdUtility.ShortenEachAt | run_id_utility.py:18-36 | on success output record i is the rebuilt input record i |
| RunIdUtility.ShortenEachRecords | run_id_utility.py:18-36 | on success the output keeps the input's length and order, record by record |
| RunIdUtility.ShortenEachFirstError | run_id_utility.py:19-35 | a failed loop reports the error of the first record that cannot be shortened, with every earlier record shortenable |
| RunIdUtility.ShortenEachFailsFrom | run_id_utility.py:19-35 | once a prefix of the records fails, the whole loop fails with that error |
| RunIdUtility.ShortenAll | run_id_utility.py:4-36 | a hash length outside [6, 8] raises; otherwise the call succeeds exactly when every record can be shortened, and then returns one record per input record |
| RunIdUtility.ShortenAllRejectsLength | run_id_utility.py:15-16 | a hash length outside [6, 8] raises before any record is read, even for an empty list |
| RunIdUtility.ShortenAllSuffixes | run_id_utility.py:18-36 | after success every hash is at most `hash_length` long, every model name is kept, and a record whose hash was already short enough keeps its run_id |
| RunIdUtility.ShortenRecordTwice | run_id_utility.py:20-35 | rebuilding a record at n and then at m is rebuilding it at min(n, m) |
| RunIdUtility.ShortenTwice | run_id_utility.py:4-36 | shortening a shortened list again to a valid m equals shortening the original once to min(n, m) |
| RunIdUtility.ShortenIdempotent | run_id_utility.py:25-29 | shortening again with the same or a larger valid length changes nothing |
| RunIdUtility.ShortenKeepsCollisions | run_id_utility.py:18-36 | two run_ids of one model whose distinct hashes share their first `hash_length` characters come out identical, and both records are kept |
| RunIdUtility.ShortenRunIdHash | run_id_utility.py:4-36 | the loop as written returns exactly `ShortenAll`: the range guard, then one rebuilt record per input record in order, stopping at the first lookup that raises |
| Preprocessing.CollectMetrics | preprocessing_module.py:16-22 | every value of a successfully built metric dict is a number |
| Preprocessing.RowEntry | preprocessing_module.py:20-22 | a row yields its metric and value exactly when it has a `metric` cell and a `value` cell that `float()` accepts |
| Preprocessing.CollectMetricsSucceeds | preprocessing_module.py:19-22 | the row loop succeeds exactly when every row is readable |
| Preprocessing.CollectMetricsFirstError | preprocessing_module.py:19-22 | a failed row loop reports the error of the first unreadable row |
| Preprocessing.CollectMetricsKeys | preprocessing_module.py:16-22 | with every row readable, the record's keys are exactly the metric names of the rows |
| Preprocessing.CollectMetricsLastWins | preprocessing_module.py:19-22 | a metric's value is the one on the last row that names it |
| Preprocessing.CollectMetricsFailsFrom | preprocessing_module.py:19-22 | once a prefix of the rows fails, the whole loop fails with that error |
| Preprocessing.Basename | preprocessing_module.py:24 | `os.path.basename` returns a `/`-free suffix of the path, and the character just before it, if any, is a `/`: the text after the last `/` |
| Preprocessing.PathJoin | preprocessing_module.py:44 | the joined path ends with the name, and starts with the directory unless the name is absolute |
| Preprocessing.BasenameAfterSlash | preprocessing_module.py:24 | when a `/` is followed only by `/`-free text, that text is the basename |
| Text.RFind | preprocessing_module.py:24 | `str.rfind` returns -1 or an index holding the character, with no occurrence after it |
| Text.RFindLast | preprocessing_module.py:24 | the last occurrence of a character is the index `rfind` reports |
| Preprocessing.BasenameOfJoin | preprocessing_module.py:44 | the basename of `os.path.join(directory, name)` is `name`, for any directory, when the name has no `/` |
| Preprocessing.StripExtension | preprocessing_module.py:25 | the root is a prefix of the file name; when something is dropped, it is the final extension: a `.` followed by text with no `.` and no `/`, with a non-dot character between the last `/` and that `.`; when nothing is dropped, every `.` after the last `/` has only dots before it in the final path component |
| Preprocessing.StripCsvExtension | preprocessing_module.py:25 | `splitext` of `stem + ".csv"` drops only the final `.csv`, except for a stem made only of dots, where the whole name is kept |
| Preprocessing.RunIdFor | preprocessing_module.py:24-27 | when the digest has no `_`, the run_id splits back into the file name without its extension and the digest |
| Preprocessing.ExtractRecord | preprocessing_module.py:6-29 | extraction succeeds exactly when the row loop does, and then `run_id` is the computed identifier of the path's basename |
| Preprocessing.ExtractRecordContents | preprocessing_module.py:16-29 | an extracted record exists exactly when every row is readable; its `run_id` is the computed identifier even when a row names `run_id`; every other key is a metric of the rows, with its value |
| Preprocessing.RunIdIgnoresDirectoryAndContents | preprocessing_module.py:24-27 | the run_id depends only on the file name, not on the directory or on the rows |
| Preprocessing.ParseCsvToRecord | preprocessing_module.py:6-29 | the loop as written returns exactly `ExtractRecord` |
| Preprocessing.CsvNames | preprocessing_module.py:42-43 | the `endswith(".csv")` filter returns no more names than the listing holds, each ending in `.csv` |
| Preprocessing.CsvNamesMembers | preprocessing_module.py:42-43 | the filter keeps exactly the listing entries ending in `.csv` |
| Preprocessing.BuildDataset | preprocessing_module.py:41-46 | a successful build holds at most one record per directory entry |
| Preprocessing.BuildDatasetStep | preprocessing_module.py:42-46 | one more entry: a non-`.csv` entry changes nothing; a `.csv` entry appends its record when the earlier build and its own extraction succeed, and fails otherwise |
| Preprocessing.AllExtractSnoc | preprocessing_module.py:42-46 | every name of `names + [last]` extracts exactly when every name of `names` and `last` do |
| Preprocessing.BuildDatasetSucceeds | preprocessing_module.py:41-46 | the build succeeds exactly when every `.csv` entry extracts |
| Preprocessing.BuildDatasetAt | preprocessing_module.py:41-46 | a successful build holds one record per `.csv` entry, and record j is the j-th `.csv` entry's record |
| Preprocessing.BuildDatasetRecords | preprocessing_module.py:41-46 | the build succeeds exactly when every `.csv` entry extracts; then there is one record per `.csv` entry, in listing order, each the entry's extracted record |
| Preprocessing.BuildDatasetRunIds | preprocessing_module.py:41-46 | record j of a built dataset carries the run_id of the j-th `.csv` name |
| Preprocessing.BuildDatasetFailsFrom | preprocessing_module.py:41-46 | once a prefix of the listing fails, the whole build fails with that error |
| Preprocessing.ProcessAllCsvs | preprocessing_module.py:41-46 | the loop as written returns exactly `BuildDataset` |
| ChatAnalysis.FirstMinIndex | chat_analysis.py:6 | `idxmin` picks a position holding the smallest value, and no earlier position holds it |
| ChatAnalysis.FirstMaxIndex | chat_analysis.py:7 | `idxmax` picks a position holding the largest value, and no earlier position holds it |
| ChatAnalysis.BestRows | chat_analysis.py:6-7 | the reported rows are the first with the lowest WER and the first with the highest BLEU |
| ChatAnalysis.WorstRows | chat_analysis.py:16-17 | the reported rows are the first with the highest WER and the first with the lowest BLEU |
| ChatAnalysis.BestRowsAre | chat_analysis.py:6-7 | any rows that are the first with the lowest WER and the first with the highest BLEU are the ones reported |
| ChatAnalysis.WorstRowsAre | chat_analysis.py:16-17 | any rows that are the first with the highest WER and the first with the lowest BLEU are the ones reported |
| ChatAnalysis.OverallSentence | chat_analysis.py:8-9 | the combined sentence opens with "The <adjective> overall model is " followed by the run_id and " with WER: " |
| ChatAnalysis.TwoPartSentence | chat_analysis.py:10-11 | the two-part sentence opens with the heading, " WER: ", the WER row's run_id and " (" |
| ChatAnalysis.Describe | chat_analysis.py:8-11 | the answer about two rows is never "N/A" |
| ChatAnalysis.DescribeForm | chat_analysis.py:8-11 | the answer is never "N/A", and opens with "The … overall model is " exactly when the two rows share a run_id |
| ChatAnalysis.GetBestModel | chat_analysis.py:3-11 | "N/A" exactly for an empty dataset; otherwise the answer opens with "The best overall model is " exactly when the lowest-WER and highest-BLEU rows share a run_id |
| ChatAnalysis.GetWorstModel | chat_analysis.py:13-21 | "N/A" exactly for an empty dataset; otherwise the answer opens with "The worst overall model is " exactly when the highest-WER and lowest-BLEU rows share a run_id |
| ChatAnalysis.BestReportsExtremes | chat_analysis.py:3-11 | for the first lowest-WER row w and the first highest-BLEU row b, the answer is the "best overall" sentence about them when they share a run_id, and the two-part "Best WER … Best BLEU …" sentence otherwise |
| ChatAnalysis.WorstReportsExtremes | chat_analysis.py:13-21 | for the first highest-WER row w and the first lowest-BLEU row b, the answer is the "worst overall" sentence about them when they share a run_id, and the two-part "Worst WER … Worst BLEU …" sentence otherwise |
| ChatAnalysis.ExplainTradeoff | chat_analysis.py:23-32 | "N/A" exactly for an empty dataset |
| ChatAnalysis.GetAnalysisResponse | chat_analysis.py:34-43 | every answer is the best-model answer, the worst-model answer, the trade-off answer or the help text |
| ChatAnalysis.Route | chat_analysis.py:36-43 | the `if`/`elif` chain on the lower-cased query answers "N/A" only for an empty dataset |
| ChatAnalysis.RouteAnswers | chat_analysis.py:36-43 | the keyword tests on the lower-cased query always land on one of the four answers |
| Text.Lower | chat_analysis.py:35 | lower-casing keeps the length and maps each character by itself, changing only ASCII capitals |
| ChatAnalysis.TradeoffIgnoresData | chat_analysis.py:23-32 | the trade-off text is the same for every non-empty dataset and is not "N/A" |
| ChatAnalysis.TradeoffPhraseSubsumed | chat_analysis.py:40 | a query containing "wer-bleu tradeoff" contains "tradeoff" |
| ChatAnalysis.RoutePriority | chat_analysis.py:34-43 | "best model" wins over every other keyword, then "worst model", then "tradeoff"; with none of them the help text is returned |
| ChatAnalysis.RouteIgnoresCase | chat_analysis.py:34-43 | queries that agree letter for letter up to ASCII case get the same answer |
| ChatAnalysis.EmptyDatasetResponses | chat_analysis.py:34-43 | on an empty dataset every routed question gets "N/A" and any other question gets the help text |
| ChatAnalysis.SingleRunIsBestOverall | chat_analysis.py:3-11 | a one-row dataset gets the combined "best overall" sentence about that row |
| ChatAnalysis.TwoRunsSplitBest | chat_analysis.py:3-11 | two runs, each best on one metric, get the two-part sentence naming each |
| Pipeline.IsHexDigest | preprocessing_module.py:26 | what `hexdigest()` of SHA-1 returns: exactly 40 lower-case hexadecimal digits |
| Pipeline.HexDigestHasNoUnderscore | preprocessing_module.py:26 | a SHA-1 hex digest (40 lower-case hexadecimal digits) contains no `_` |
| Pipeline.ExtractedRunIdSplitsBack | preprocessing_module.py:24-27 | the shortener splits an extracted run_id back into the file's model name and its digest, even when the model name contains underscores |
| Pipeline.ShortenRunIdFor | run_id_utility.py:21-27 | the run_id of a file, shortened to a valid length, is the file's model name, `_`, and the first `hash_length` digits of its digest |
| Pipeline.ShortenBuiltDataset | run_id_utility.py:4-36 | shortening a built dataset succeeds exactly when the length is valid and every record has `wer` and `bleu`; then record j's run_id is the j-th `.csv` file's model name, `_`, and the first `hash_length` digits of its digest |
| Pipeline.ShortenedRecordAt | run_id_utility.py:20-35 | a record carrying the run_id built for file `name`, once rebuilt, carries the file's model name, `_`, and the first `hash_length` digits of its digest |
| Pipeline.BuiltRunIdsDistinct | preprocessing_module.py:41-46 | built run_ids are pairwise distinct when the digests of the `.csv` names are |

## Left out

- File and JSON I/O are left out: opening and reading CSV files,
  `os.listdir`, `os.makedirs`, and writing or reading
  `processed_metrics.json`. The rows of a file and the directory listing are
  parameters. The JSON write at the end of `process_all_csvs` is not
  modelled, and neither are the `__main__` blocks of the three files.
- CSV tokenising is not modelled. `csv.DictReader` is represented by the
  rows it yields: one map per data line, from column name to cell.
- SHA-1 is not modelled. `hashlib.sha1(...).hexdigest()` is a function
  parameter; the pipeline lemmas require it to return 40 hexadecimal digits.
- `float()` is not modelled. The parser is a parameter that returns `None`
  where Python raises `ValueError`. Metric values are `real`, not IEEE
  doubles, and NaN is not represented.
- ChatAnalysis.FirstMinIndex and ChatAnalysis.FirstMaxIndex do not model
  how pandas skips NaN values, because metric values are `real`.
- ChatAnalysis.GetBestModel and ChatAnalysis.GetWorstModel use positional
  rows. `df.loc[label]` with duplicate index labels, which returns several
  rows, is not modelled.
- Number formatting (`:.4f`, `:.2f`) is a function parameter, so the digits
  of the answers are not modelled.
- Text.Lower models `str.lower` on ASCII letters only; Unicode case mapping
  is not modelled. The routing outcome is unaffected. The only non-ASCII
  characters whose lower case contains an ASCII letter are U+212A (to `k`)
  and U+0130 (to `i` plus a combining dot), and none of the router's
  keywords contain `k` or `i`.
- `csv.DictReader` fills the missing cells of a short row with `None`.
  `float(None)` then raises `TypeError`, and with the header order
  `value,metric` a `None` metric key is stored
  (preprocessing_module.py:20-22). A row is a `map<string, string>`, which
  cannot hold `None`, so these cases are not modelled.
- The query responder's missing-column errors are not modelled.
  `df["wer"]`, `df["bleu"]` and `["run_id"]` raise `KeyError` when a column
  is missing (chat_analysis.py:6-7, 16-17). The `Run` datatype makes all
  three fields mandatory.
- The default arguments `hash_length=6` (run_id_utility.py:4) and
  `data_raw_path="data/raw/"` (preprocessing_module.py:31) are not
  modelled. The modelled operations take both as ordinary parameters.
- A record's `wer` and `bleu` are copied as values of any type, as the
  shortener copies them. JSON types other than strings and numbers are not
  modelled.
- `os.path.join` is modelled for POSIX paths and a single name. Windows path
  rules are not modelled.
- visualization_module.py and app.py (the dashboard, charts and layout) are
  not part of this model.
