# Jenkins test-report debugging: a Dafny model of the core

This project models the logic of a small service that reads machine-generated
test reports (Allure/Jenkins JSON records). It has two halves:

- **The upload pipeline** (`app/core/utils.py`, `app/routes/result.py`) works
  on each uploaded record in turn:
  - normalises it: the grouping key from the `testClass` label, the status mapping, the failure data;
  - finds the failure location in its stack trace;
  - tallies it under its test class;
  - asks a text-generation service for an analysis of the class's failures, with a fixed-shape fallback;
  - sets the fail percentages.
- **The standalone report parser** (`main.py`) builds a debugging summary of one record:
  - the error location, read off Java frames;
  - the failing stage (set-up, test or tear-down);
  - the run history (pass rate, consistently failing);
  - a cause/fix pair parsed from a model reply, by JSON or by a keyword scan.

Modules:

| module | file | models |
|---|---|---|
| `Wrappers` | `wrappers.dfy` | `Option`, `Result` |
| `PyStr` | `pystr.dfy` | Python `str.find`, `rfind`, `in`, `split`, `join`, `strip`, `lower` and slicing, on `seq<char>` |
| `Report` | `report.dfy` | the deserialised record that both halves read |
| `JsonText` | `jsontext.dfy` | the `{`…`}` span of a reply, and `json.loads` as an abstract decoder |
| `CoreUtils` | `coreutils.dfy` | `process_test_file`, the locator, `generate_failure_analysis`, `analyze_failures` |
| `ResultRoute` | `resultroute.dfy` | the aggregation of the upload route |
| `JenkinsReport` | `jenkinsreport.dfy` | `main.py`'s extractors, reply parsing and report assembly |

Python's string operations are modelled exactly, except that `lower` maps
only ASCII letters (see the `PyStr.Lower` line under "Left out"). For example, `split(sep)` cuts
at every occurrence, so `line.split('at ')[1]` is the text between the first
and second `at `. `strip` removes exactly the characters `str.isspace`
accepts. `find` and `rfind` return -1 when there is no match.

The model call and `json.loads` are parameters of the functions that use them:
- `generate` returns the reply text or the error it raised;
- `decode` returns the decoded value or the decoder's error message.

The one decoder fact the model relies on is that `json.loads("")` fails with
`Expecting value: line 1 column 1 (char 0)`.

Behaviours of the code worth knowing, all modelled as written:
- A class with no failure details keeps the empty analysis its tally started
  with: no causes and no solutions.
- The route starts a fresh table for every uploaded file, and each file holds
  one record. A table therefore has at most one class, and the percentage
  and analysis pass runs once per file, not once per batch.
- When the keyword scan of the standalone parser finds no labelled cause and
  fix, the result is not the fixed "cannot determine" pair. It is
  `Based on Gemini analysis: ` plus the first 200 characters of the reply,
  with a fixed fix.
- The locator's per-line `try/except` never fires: the guards make every
  index exist, so the model's locator is total.
- `generate_failure_analysis` computes its end index as `rfind('}') + 1`,
  which is never -1. So "No valid JSON found in response" is reported only
  when the reply has no `{`. A reply whose `}`s all come before its first `{`
  decodes the empty text and falls back with the decoder's empty-input error.

## Model

| member | source | states |
|---|---|---|
| PyStr.Find | app/core/utils.py:104 | the first index where the pattern occurs; -1 exactly when it occurs nowhere |
| PyStr.RFind | app/core/utils.py:105 | the last index where the pattern occurs; -1 exactly when it occurs nowhere |
| PyStr.Split | app/core/utils.py:27 | a split has at least one piece, and at least two exactly when the separator occurs |
| PyStr.SplitJoinsBack | app/core/utils.py:36 | joining the pieces of a split with the separator gives the text back |
| PyStr.SplitPiecesFree | app/core/utils.py:36-39 | no piece of a split contains the separator |
| PyStr.SplitJoin | app/core/utils.py:138-139 | splitting the newline-join of pieces without newlines gives the pieces back in order |
| PyStr.SplitAroundChar | app/core/utils.py:27 | splitting on a character around one of its occurrences gives the split of the text before it followed by the split of the text after it |
| PyStr.SplitJoinEach | app/core/utils.py:138-139 | splitting a non-empty join on its one-character separator gives the splits of the joined texts, in order |
| PyStr.FirstTwoFields | app/core/utils.py:36-39 | the first two pieces of a split on a character the text contains are its leading fields: free of the character, and with it the start of the text, which then ends or continues with it |
| PyStr.StripIsStripped | app/core/utils.py:45 | `strip` returns the slice left after removing exactly the leading and trailing white space |
| PyStr.LastPiece | main.py:97-99 | `split('.')[-1]` has no `.`, ends the text, and is either all of it or follows a `.` |
| PyStr.Take | main.py:266-267 | `s[:n]` is the prefix of exactly `n` characters of a longer text, and all of `s` when it is short enough |
| PyStr.Lower | main.py:48 | each upper-case ASCII letter becomes its lower-case letter and every other character is kept in place, length unchanged (weaker: ASCII only, see "Left out") |
| PyStr.LowerIdempotent | main.py:259-261 | lower-casing twice is lower-casing once |
| PyStr.Slice | app/core/utils.py:108 | `s[a:b]` is empty when `b <= a` and the exact slice when the bounds are in range |
| PyStr.AfterFirst | main.py:260 | `split(':', 1)[1]` is what follows the first piece and the separator |
| JsonText.Loads | app/core/utils.py:109 | decoding the empty text fails with the empty-input error; other texts go to the decoder |
| JsonText.BraceSpan | app/core/utils.py:104-108 | the slice runs from the first `{` through the last `}`, and is empty when no `}` follows the first `{` |
| CoreUtils.FindClassName | app/core/utils.py:18-21 | the value of the first `testClass` label; none when no label is one; a KeyError when a label before it has no name or it has no value |
| CoreUtils.LocateLine | app/core/utils.py:29-47 | a line yields a location exactly when it has `at `, `(` and `)` and its parenthesised part has a `:` |
| CoreUtils.LocateLineFields | app/core/utils.py:32-45 | the file and line fields are the first two `:`-fields of the parenthesised part; the method is the text between the first and second `at `, cut at its first `(` and stripped; the full line is the stripped line |
| CoreUtils.LocateFailure | app/core/utils.py:23-49 | no location for an empty trace; otherwise the location of the first line that yields one, or none when no line does |
| CoreUtils.LocateJavaFrame | app/core/utils.py:29-47 | an indented frame `at m(file:ln)` is located at exactly `file`, `ln`, `m`, with the unindented frame as its full line |
| CoreUtils.LocateFirstFrame | app/core/utils.py:25-47 | a trace whose first line is such a frame is located at that frame, whatever follows it |
| CoreUtils.ProcessTestFile | app/core/utils.py:9-64 | `None` exactly when reading the labels raises; `broken` and `failed` become `failed`; failure data exactly for those two, with `''` defaults, and no location without a trace |
| CoreUtils.NormalizeStatus | app/core/utils.py:53 | the result is `failed` exactly for `failed` and `broken`, is never `broken`, and is the status itself otherwise |
| CoreUtils.NormalisedFrameLocation | app/core/utils.py:23-57 | a failing record whose trace starts with a plain Java frame is normalised with that frame as its failure location |
| CoreUtils.GenerateFailureAnalysis | app/core/utils.py:96-126 | a failed call gives the fallback with its error; no `{` gives the "No valid JSON" fallback; misplaced braces give the empty-input fallback; otherwise the decoded span or the fallback with the decoder's error |
| CoreUtils.AnalysisNeverRaises | app/core/utils.py:113-126 | the analysis is always either something the decoder produced or a fallback of the fixed low-confidence shape |
| CoreUtils.CombinedPrompt | app/core/utils.py:137-140 | one failure detail gives its own message and trace as the prompt (the general case is `CombinedPromptKeepsOrder`) |
| CoreUtils.CombinedPromptKeepsOrder | app/core/utils.py:137-140 | the merged prompt loses nothing: splitting it at newlines gives the lines of every message, then of every trace, in the order of the details, multi-line traces included |
| CoreUtils.CombinedPromptOneLineEach | app/core/utils.py:137-140 | when no message or trace has a newline, splitting the merged prompt at newlines gives back exactly the messages and the traces |
| CoreUtils.FailPercentage | app/core/utils.py:131 | the percentage times the total is the failures times 100, and lies in [0, 100] when failures do not exceed the total |
| CoreUtils.AnalyzeEntry | app/core/utils.py:129-142 | counts and details are kept; a class with tests gets its percentage; a class with details gets the analysis of their merged prompt; anything else is unchanged |
| CoreUtils.AnalyzeFailures | app/core/utils.py:128-143 | the same, for every class of the table, with the set of classes unchanged |
| ResultRoute.ProcessDocument | app/core/utils.py:62-64 | a document that is not an object normalises to `None` |
| ResultRoute.Record | app/routes/result.py:45-57 | only the record's class changes; its total goes up by one, `passed` only on `passed`, `failed` only on `failed`, and a detail stamped with the file name is appended only on a failure with data |
| ResultRoute.RecordKeepsWellCounted | app/routes/result.py:47-57 | recording a normalised record keeps `passed + failed <= total` and one detail per failure |
| ResultRoute.SetPercentages | app/routes/result.py:61-64 | every class with tests gets `failed / total * 100`; the others are unchanged |
| ResultRoute.SetPercentagesAfterAnalysis | app/routes/result.py:58-64 | the route's percentage pass changes nothing after `analyze_failures` |
| ResultRoute.ProcessUpload | app/routes/result.py:40-58 | a file that cannot be decoded is skipped; otherwise its table is empty or holds just the record's class |
| ResultRoute.UploadEntryShape | app/routes/result.py:44-64 | the class of a recognised file counts one test, is well counted, has percentage 100 or 0, and carries the generated analysis exactly when the record failed |
| ResultRoute.UploadAll | app/routes/result.py:28-97 | one table per decodable file, each with at most one class; as many tables as files exactly when every file decodes; a single file gives its table, or nothing when it cannot be decoded |
| ResultRoute.Collect | app/routes/result.py:28-97 | never more results than items; one item gives its result, or nothing |
| ResultRoute.CollectMeaning | app/routes/result.py:28-97 | as many results as items exactly when every item yields one; every yielded result is kept, and nothing no item yields |
| ResultRoute.CollectAppend | app/routes/result.py:28-97 | collecting over two runs of items gives the first run's results followed by the second's, which with the one-item clause fixes order and number |
| ResultRoute.UploadAllAppend | app/routes/result.py:28-97 | two batches of uploads give the first batch's tables followed by the second's: one table per decodable file, in upload order |
| JenkinsReport.LastOfMeaning | main.py:257-262 | the backward reference scan yields `f` of the last matching item, or the default when none matches |
| JenkinsReport.LastOfStep | main.py:258-262 | looking at the first item and then the rest finds the same last match |
| JenkinsReport.FileFrameLocation | main.py:102-106 | file and line are the first two `:`-fields of the parenthesised part (the line runs to the next `:` or the end), and the method is the line's call method |
| JenkinsReport.PositionLocation | main.py:104-106 | file and line are the leading `:`-fields of a position, and the method is the one given |
| JenkinsReport.ScanFrames | main.py:91-107 | the first line with a Java position gives the location; without one, file and line stay unknown and the method is that of the last call line |
| JenkinsReport.ExtractErrorLocation | main.py:85-109 | all `Unknown` for an empty trace or the placeholder; otherwise the result of the scan over the trace's lines |
| JenkinsReport.FirstFailed | main.py:125-129 | the first stage whose status is exactly `failed`, or none |
| JenkinsReport.ExtractStageInfo | main.py:121-146 | a failed set-up stage wins, then the test stage, then a failed tear-down stage; names default to `Unknown` |
| JenkinsReport.PassRate | main.py:167-174 | 0 with no runs; otherwise the rate times the total is passes times 100, and it lies in [0, 100] for sane counts |
| JenkinsReport.AllFailed | main.py:185 | true exactly when every run failed or broke |
| JenkinsReport.IsConsistentlyFailing | main.py:176-185 | true exactly when there are at least three runs and the three most recent failed or broke |
| JenkinsReport.OnlyRecentRunsCount | main.py:181-185 | older runs never change the verdict |
| JenkinsReport.ExtractHistoryInfo | main.py:148-165 | the total, the pass rate and the three-run verdict of the record's history |
| JenkinsReport.Field | main.py:249-250 | a present key gives its value, an absent one the default |
| JenkinsReport.LabelValue | main.py:260 | the stripped text after the first `:`, or the whole line when it has none |
| JenkinsReport.ScanKeywords | main.py:257-262 | the scan keeps the value of the last line naming the cause and of the last line naming only the fix |
| JenkinsReport.KeywordAnalysis | main.py:252-274 | both labelled values, cut to 200 characters, when both are non-empty; otherwise the reply's first 200 characters after a fixed prefix, with a fixed fix |
| JenkinsReport.ParseReply | main.py:236-278 | a reply with both braces: each field from the decoded object, defaulting separately, or the default pair when decoding fails or gives no object; other replies: the keyword scan |
| JenkinsReport.MisplacedBracesGiveDefault | main.py:241-247 | a reply whose `}`s all precede its first `{` gives the default pair |
| JenkinsReport.GeminiAnalysis | main.py:199-282 | no API key or a failed call gives the default pair; otherwise the parsed reply |
| JenkinsReport.ParseJenkinsReport | main.py:17-73 | read errors and non-object documents become the prefixed error text; a record gets defaults for absent keys, and error details with an analysis exactly when its lower-cased status is `failed` or `broken` |
| JenkinsReport.UploadFailureIsReportFailure | main.py:48 | every status the upload pipeline counts as a failure, the report parser counts as one too |
| JenkinsReport.CapitalisedFailureDiffers | main.py:48 | `FAILED` is a failure to the report parser but not to the upload pipeline, which keeps it as is and records no failure data |
| JenkinsReport.MissingTraceUnknownLocation | main.py:29 | a failing record without a trace is reported at an unknown location |

## Left out

- The text-generation client (`get_model`, `genai.configure`,
  `generate_content`) and the one-second throttle are I/O. The reply is a
  parameter. The instruction text of both prompts belongs to the abstract
  generator; the model keeps only the interpolated fields.
- `generate` is a function, so the model treats the generation service as
  deterministic for a given prompt.
- `get_model()` is called before the `try` in `generate_failure_analysis`. An
  exception it raises would escape; configuration is not part of this model.
- The database upsert, commit and rollback, `push_to_db`, the FastAPI routes
  and `app.py`, file reading and writing, `argparse` and every `print` are I/O
  or plumbing.
- Python's `round(…, 2)` on the pass rate, and the test duration
  (`duration_ms / 1000`), are left out. Percentages and rates are exact `real`
  ratios.
- JSON values are modelled as the strings, lists and objects the code
  expects. A `null`, a number or a nested value where the code expects a
  string, and a list entry that is not an object, are left out. So are the
  exceptions these would raise.
- The text of a decoding error is the decoder's. Only the empty-input message
  is fixed by the model.
- PyStr.Lower: lower-cases ASCII letters only. Python also lower-cases the
  Kelvin sign (U+212A) to `k` and U+0130 to `i` plus a combining dot. The dot
  keeps U+0130 from completing any keyword or status. The Kelvin sign can:
  Python reads `BRO` + U+212A + `EN` as the failing status `broken`, and the
  model does not.
- The response list the upload route builds is returned as the sequence of
  per-file tables. The route's HTTP reply is a fixed message.
