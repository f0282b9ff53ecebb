/** The standalone report parser (main.py): from one deserialised test
    record it builds the debugging summary — the test's identity, its run
    history, and for a failure the error location, the failing stage and a
    model-generated cause and fix. */
module JenkinsReport {
  import opened Wrappers
  import opened PyStr
  import opened Report
  import opened JsonText
  import CoreUtils

  // ---------------------------------------------------------------------
  // Last match, as a reference for the forward scans below
  // ---------------------------------------------------------------------

  /** `f` of the last item satisfying `p`, or `none` when no item does,
      found by looking from the end. */
  function LastOf<T, U>(p: T -> bool, f: T -> U, xs: seq<T>, none: U): U
    decreases |xs|
  {
    if |xs| == 0 then none
    else if p(xs[|xs| - 1]) then f(xs[|xs| - 1])
    else LastOf(p, f, xs[..|xs| - 1], none)
  }

  /** No item from index `k` on satisfies `p`. */
  predicate NoMatchFrom<T>(p: T -> bool, xs: seq<T>, k: int) {
    forall j :: 0 <= j < |xs| && k <= j ==> !p(xs[j])
  }

  /** Item `i` is the last one satisfying `p`. */
  predicate LastMatchAt<T>(p: T -> bool, xs: seq<T>, i: int) {
    0 <= i < |xs| && p(xs[i]) && NoMatchFrom(p, xs, i + 1)
  }

  /** Item `i` is the first one satisfying `p`. */
  predicate FirstMatchAt<T>(p: T -> bool, xs: seq<T>, i: int) {
    0 <= i < |xs| && p(xs[i]) && forall j :: 0 <= j < i ==> !p(xs[j])
  }

  /** Dropping a first item that does not match keeps "no match" and moves
      the first match one place down. */
  lemma MatchShift<T>(p: T -> bool, xs: seq<T>)
    requires |xs| >= 1 && !p(xs[0])
    ensures NoMatchFrom(p, xs, 0) ==> NoMatchFrom(p, xs[1..], 0)
    ensures forall i :: FirstMatchAt(p, xs, i) ==> FirstMatchAt(p, xs[1..], i - 1)
  {
    forall i | FirstMatchAt(p, xs, i) ensures FirstMatchAt(p, xs[1..], i - 1) {
      assert forall j :: 0 <= j < i - 1 ==> xs[1..][j] == xs[j + 1];
    }
  }

  /** What `LastOf` finds: `none` when nothing matches, and otherwise `f`
      of the last match. */
  lemma {:induction false} LastOfMeaning<T, U>(p: T -> bool, f: T -> U, xs: seq<T>, none: U)
    ensures NoMatchFrom(p, xs, 0) ==> LastOf(p, f, xs, none) == none
    ensures forall i :: LastMatchAt(p, xs, i) ==> LastOf(p, f, xs, none) == f(xs[i])
    decreases |xs|
  {
    var n := |xs|;
    if n > 0 && !p(xs[n - 1]) {
      var ys := xs[..n - 1];
      LastOfMeaning(p, f, ys, none);
      if NoMatchFrom(p, xs, 0) {
        assert NoMatchFrom(p, ys, 0);
      }
      forall i | LastMatchAt(p, xs, i) ensures LastOf(p, f, xs, none) == f(xs[i]) {
        assert i < n - 1;
        assert LastMatchAt(p, ys, i);
      }
    }
  }

  /** Taking the first item into account first and then the rest finds the
      same last match: what a forward scan that overwrites a variable on
      every match relies on. */
  lemma {:induction false} LastOfStep<T, U>(p: T -> bool, f: T -> U, xs: seq<T>, none: U)
    requires |xs| >= 1
    ensures LastOf(p, f, xs, none) == LastOf(p, f, xs[1..], if p(xs[0]) then f(xs[0]) else none)
    decreases |xs|
  {
    var n := |xs|;
    if n > 1 && !p(xs[n - 1]) {
      LastOfStep(p, f, xs[..n - 1], none);
      assert xs[..n - 1][1..] == xs[1..][..n - 2];
    }
  }

  // ---------------------------------------------------------------------
  // Error location
  // ---------------------------------------------------------------------

  const UnknownText: string := "Unknown"

  /** The trace the parser substitutes when a record has none. */
  const NoTraceText: string := "No stack trace available"

  /** File, line and method of a failure; each is `Unknown` until found. */
  datatype ErrorLocation = ErrorLocation(file: string, line: string, methodName: string)

  const UnknownLocation: ErrorLocation := ErrorLocation(UnknownText, UnknownText, UnknownText)

  /** A line mentioning a Java source position whose stripped text has a `(`. */
  predicate HasCall(line: string) {
    Contains(line, ".java:") && Contains(Strip(line), "(")
  }

  /** The stripped text before the first `(` of the stripped line: the
      qualified name of a call such as `a.b.C.run(`. */
  function CallTarget(line: string): string {
    Strip(Split(Strip(line), "(")[0])
  }

  /** The method name: the last `.`-separated segment of the call target
      (`LastPiece` states what that is). */
  function CallMethod(line: string): string {
    LastPiece(CallTarget(line), '.')
  }

  /** The stripped line's text after the first `(` up to the next `)` or `(`. */
  function CallFileInfo(line: string): string
    requires HasCall(line)
  {
    Split(Split(Strip(line), "(")[1], ")")[0]
  }

  /** A call line whose parenthesised part holds a `file:line` position. */
  predicate HasFileInfo(line: string) {
    HasCall(line) && Contains(CallFileInfo(line), ":")
  }

  /** The location a position-carrying call line gives: the first two
      `:`-fields of its parenthesised part and its method. */
  function FileFrameLocation(line: string): (r: ErrorLocation)
    requires HasFileInfo(line)
    ensures LeadingFields(CallFileInfo(line), ':', r.file, r.line)
    ensures r.methodName == CallMethod(line)
  {
    PositionLocation(CallFileInfo(line), CallMethod(line))
  }

  /** The location a `file:line` position gives: its first two `:`-fields. */
  function PositionLocation(info: string, methodName: string): (r: ErrorLocation)
    requires Contains(info, ":")
    ensures LeadingFields(info, ':', r.file, r.line)
    ensures r.methodName == methodName
  {
    FirstTwoFields(info, ':');
    var fields := Split(info, ":");
    ErrorLocation(fields[0], fields[1], methodName)
  }

  /** The scan of `extract_error_location` from the current method on: a
      call line sets the method; the first one with a position also sets
      file and line and ends the scan. */
  function ScanFrames(lines: seq<string>, methodName: string): (r: ErrorLocation)
    ensures NoMatchFrom(HasFileInfo, lines, 0) ==>
              r == ErrorLocation(UnknownText, UnknownText, LastOf(HasCall, CallMethod, lines, methodName))
    ensures forall j :: FirstMatchAt(HasFileInfo, lines, j) ==> r == FileFrameLocation(lines[j])
    decreases |lines|
  {
    if |lines| == 0 then ErrorLocation(UnknownText, UnknownText, methodName)
    else
      var line := lines[0];
      if HasFileInfo(line) then FileFrameLocation(line)
      else
        var next := if HasCall(line) then CallMethod(line) else methodName;
        LastOfStep(HasCall, CallMethod, lines, methodName);
        MatchShift(HasFileInfo, lines);
        ScanFrames(lines[1..], next)
  }

  /** `extract_error_location`: all `Unknown` for an empty trace or the
      placeholder; otherwise the location of the first line that names a
      Java position, or — when no line does — unknown file and line with
      the method of the last call line seen. */
  function ExtractErrorLocation(trace: string): (r: ErrorLocation)
    ensures trace == "" || trace == NoTraceText ==> r == UnknownLocation
    ensures trace != "" && trace != NoTraceText ==>
              var lines := Split(trace, "\n");
              && (NoMatchFrom(HasFileInfo, lines, 0) ==>
                    r == ErrorLocation(UnknownText, UnknownText, LastOf(HasCall, CallMethod, lines, UnknownText)))
              && (forall j :: FirstMatchAt(HasFileInfo, lines, j) ==> r == FileFrameLocation(lines[j]))
  {
    if trace == "" || trace == NoTraceText then UnknownLocation
    else ScanFrames(Split(trace, "\n"), UnknownText)
  }

  // ---------------------------------------------------------------------
  // Failing stage
  // ---------------------------------------------------------------------

  datatype Phase = Setup | Test | Teardown | NoPhase

  /** The stage a failure is attributed to: its name and phase. */
  datatype StageInfo = StageInfo(name: string, phase: Phase)

  /** Only the exact status `failed` marks a stage as failed. */
  predicate StageFailed(s: Stage) {
    s.status == Some("failed")
  }

  /** The first failed stage of a list, if any. */
  function FirstFailed(stages: seq<Stage>): (r: Option<Stage>)
    ensures r.None? <==> NoMatchFrom(StageFailed, stages, 0)
    ensures r.Some? ==> exists i :: FirstMatchAt(StageFailed, stages, i) && stages[i] == r.value
  {
    if |stages| == 0 then None
    else if StageFailed(stages[0]) then Some(stages[0])
    else
      var r := FirstFailed(stages[1..]);
      assert forall i :: 1 <= i < |stages| ==> stages[i] == stages[1..][i - 1];
      r
  }

  /** `extract_stage_info`: set-up stages first, then the test stage, then
      the tear-down stages; the first failed one wins. */
  function ExtractStageInfo(rec: RawRecord): (r: StageInfo)
    ensures r.phase == Setup <==> !NoMatchFrom(StageFailed, rec.beforeStages, 0)
    ensures r.phase == Setup ==>
              exists i :: FirstMatchAt(StageFailed, rec.beforeStages, i) && r.name == rec.beforeStages[i].name.GetOr(UnknownText)
    ensures r.phase == Test <==> NoMatchFrom(StageFailed, rec.beforeStages, 0) && StageFailed(rec.testStage)
    ensures r.phase == Test ==> r.name == "Test Execution"
    ensures r.phase == Teardown <==>
              NoMatchFrom(StageFailed, rec.beforeStages, 0) && !StageFailed(rec.testStage) && !NoMatchFrom(StageFailed, rec.afterStages, 0)
    ensures r.phase == Teardown ==>
              exists i :: FirstMatchAt(StageFailed, rec.afterStages, i) && r.name == rec.afterStages[i].name.GetOr(UnknownText)
    ensures r.phase == NoPhase ==> r.name == UnknownText
  {
    match FirstFailed(rec.beforeStages)
    case Some(s) => StageInfo(s.name.GetOr(UnknownText), Setup)
    case None =>
      if StageFailed(rec.testStage) then StageInfo("Test Execution", Test)
      else
        match FirstFailed(rec.afterStages)
        case Some(s) => StageInfo(s.name.GetOr(UnknownText), Teardown)
        case None => StageInfo(UnknownText, NoPhase)
  }

  // ---------------------------------------------------------------------
  // History
  // ---------------------------------------------------------------------

  datatype HistoryInfo = HistoryInfo(totalRuns: int, passRate: real, consistentlyFailing: bool)

  /** `calculate_pass_rate` before rounding: the share of passed runs, in
      percent, and 0 when there were no runs. */
  function PassRate(stats: Statistic): (r: real)
    ensures stats.total == 0 ==> r == 0.0
    ensures stats.total != 0 ==> r * (stats.total as real) == (stats.passed as real) * 100.0
    ensures 0 <= stats.passed <= stats.total ==> 0.0 <= r <= 100.0
  {
    if stats.total == 0 then 0.0
    else (stats.passed as real) / (stats.total as real) * 100.0
  }

  /** A historical run whose status is `failed` or `broken`. */
  predicate FailedRun(item: HistoryItem) {
    item.status.Some? && IsFailingStatus(item.status.value)
  }

  /** Python's `all` over the runs. */
  function AllFailed(items: seq<HistoryItem>): (r: bool)
    ensures r <==> forall i :: 0 <= i < |items| ==> FailedRun(items[i])
  {
    if |items| == 0 then true
    else
      assert forall i :: 1 <= i < |items| ==> items[i] == items[1..][i - 1];
      FailedRun(items[0]) && AllFailed(items[1..])
  }

  /** `is_consistently_failing`: at least three runs, and the three most
      recent all failed. */
  function IsConsistentlyFailing(items: seq<HistoryItem>): (r: bool)
    ensures r <==> |items| >= 3 && forall i :: 0 <= i < 3 ==> FailedRun(items[i])
  {
    if |items| < 3 then false else AllFailed(items[..3])
  }

  /** Older runs never change the verdict once three recent runs are known. */
  lemma OnlyRecentRunsCount(recent: seq<HistoryItem>, older: seq<HistoryItem>)
    requires |recent| >= 3
    ensures IsConsistentlyFailing(recent + older) == IsConsistentlyFailing(recent)
  {
    assert forall i :: 0 <= i < 3 ==> (recent + older)[i] == recent[i];
  }

  /** `extract_history_info`. */
  function ExtractHistoryInfo(history: History): (r: HistoryInfo)
    ensures r.totalRuns == history.statistic.total
    ensures r.passRate == PassRate(history.statistic)
    ensures r.consistentlyFailing <==>
              |history.items| >= 3 && forall i :: 0 <= i < 3 ==> FailedRun(history.items[i])
  {
    HistoryInfo(history.statistic.total, PassRate(history.statistic), IsConsistentlyFailing(history.items))
  }

  // ---------------------------------------------------------------------
  // Cause and fix from the model reply
  // ---------------------------------------------------------------------

  /** The analysis pair of the report. */
  datatype CauseFix = CauseFix(cause: string, fix: string)

  const DefaultCause: string :=
    "Could not determine cause. Please analyze the error message and stack trace manually."
  const DefaultFix: string :=
    "Could not determine fix. Please review the code at the error location."

  /** The pair returned whenever no analysis can be had. */
  const DefaultCauseFix: CauseFix := CauseFix(DefaultCause, DefaultFix)

  const ReplyPrefix: string := "Based on Gemini analysis: "
  const ReplyFix: string := "Review the error message and fix the assertion in the test code"

  /** The three texts interpolated into the analysis prompt; the instruction
      text around them belongs to the abstract generator. */
  datatype FailurePrompt = FailurePrompt(description: string, message: string, trace: string)

  /** A decoded reply: the string fields of an object, or any other value. */
  datatype ReplyDoc = ReplyObject(fields: map<string, string>) | ReplyOther

  /** `d.get(key, default)`. */
  function Field(fields: map<string, string>, key: string, default: string): (r: string)
    ensures key in fields ==> r == fields[key]
    ensures key !in fields ==> r == default
  {
    if key in fields then fields[key] else default
  }

  /** A reply line naming the cause, in any letter case. */
  predicate MentionsCause(line: string) {
    var low := Lower(line);
    Contains(low, "possible cause") || Contains(low, "possible_cause")
  }

  /** A reply line naming the fix, in any letter case. */
  predicate MentionsFix(line: string) {
    var low := Lower(line);
    Contains(low, "possible fix") || Contains(low, "possible_fix")
  }

  /** A line that sets the fix: the `elif` makes a line naming both only
      set the cause. */
  predicate SetsFix(line: string) {
    !MentionsCause(line) && MentionsFix(line)
  }

  /** The value of a labelled line: the stripped text after its first `:`,
      or the whole line when it has none. */
  function LabelValue(line: string): (r: string)
    ensures !Contains(line, ":") ==> r == line
    ensures Contains(line, ":") ==> StrippedOf(AfterFirst(line, ":"), r)
  {
    if Contains(line, ":") then
      var rest := AfterFirst(line, ":");
      StripIsStripped(rest);
      Strip(rest)
    else line
  }

  /** The keyword loop of the reply parser, from the current pair on. Its
      result is the value of the last line naming the cause and of the last
      line setting the fix, each kept as it was when there is none. */
  function ScanKeywords(lines: seq<string>, acc: CauseFix): (r: CauseFix)
    ensures r.cause == LastOf(MentionsCause, LabelValue, lines, acc.cause)
    ensures r.fix == LastOf(SetsFix, LabelValue, lines, acc.fix)
    decreases |lines|
  {
    if |lines| == 0 then acc
    else
      var line := lines[0];
      var next :=
        if MentionsCause(line) then acc.(cause := LabelValue(line))
        else if MentionsFix(line) then acc.(fix := LabelValue(line))
        else acc;
      LastOfStep(MentionsCause, LabelValue, lines, acc.cause);
      LastOfStep(SetsFix, LabelValue, lines, acc.fix);
      ScanKeywords(lines[1..], next)
  }

  /** The reply parser for a reply without braces: both labelled values,
      cut to 200 characters, when both were found; otherwise the start of
      the reply as the cause and a fixed fix. */
  function KeywordAnalysis(content: string): (r: CauseFix)
    ensures var lines := Split(content, "\n");
            var cause := LastOf(MentionsCause, LabelValue, lines, "");
            var fix := LastOf(SetsFix, LabelValue, lines, "");
            && (cause != "" && fix != "" ==>
                  r.cause <= cause && |r.cause| == Min(|cause|, 200)
                  && r.fix <= fix && |r.fix| == Min(|fix|, 200))
            && (cause == "" || fix == "" ==>
                  r.cause == ReplyPrefix + Take(content, 200) && r.fix == ReplyFix)
  {
    var found := ScanKeywords(Split(content, "\n"), CauseFix("", ""));
    if found.cause != "" && found.fix != "" then CauseFix(Take(found.cause, 200), Take(found.fix, 200))
    else CauseFix(ReplyPrefix + Take(content, 200), ReplyFix)
  }

  function Min(a: int, b: int): int {
    if a <= b then a else b
  }

  /** The reply parser of `get_gemini_analysis`. A reply with both braces is
      decoded from its first `{` through its last `}`; an object supplies
      its `possible_cause` and `possible_fix`, each defaulting separately,
      and anything else — a decoding error, a non-object — gives the
      default pair. Other replies go through the keyword scan. */
  function ParseReply(decode: string -> Result<ReplyDoc, string>, content: string): (r: CauseFix)
    ensures Contains(content, "{") && Contains(content, "}") ==>
              var decoded: Result<ReplyDoc, string> := Loads(decode, BraceSpan(content));
              && (decoded.Success? && decoded.value.ReplyObject? ==>
                    var fields := decoded.value.fields;
                    && (r.cause == if "possible_cause" in fields then fields["possible_cause"] else DefaultCause)
                    && (r.fix == if "possible_fix" in fields then fields["possible_fix"] else DefaultFix))
              && (!(decoded.Success? && decoded.value.ReplyObject?) ==> r == DefaultCauseFix)
    ensures !(Contains(content, "{") && Contains(content, "}")) ==> r == KeywordAnalysis(content)
  {
    if Contains(content, "{") && Contains(content, "}") then
      var decoded: Result<ReplyDoc, string> := Loads(decode, BraceSpan(content));
      if decoded.Success? && decoded.value.ReplyObject? then
        var fields := decoded.value.fields;
        CauseFix(Field(fields, "possible_cause", DefaultCause), Field(fields, "possible_fix", DefaultFix))
      else DefaultCauseFix
    else KeywordAnalysis(content)
  }

  /** A reply whose closing braces all come before its first opening brace
      decodes the empty text, which always fails: the default pair. */
  lemma MisplacedBracesGiveDefault(decode: string -> Result<ReplyDoc, string>, content: string)
    requires Contains(content, "{") && Contains(content, "}")
    requires RFind(content, "}") < Find(content, "{")
    ensures ParseReply(decode, content) == DefaultCauseFix
  {
    assert BraceSpan(content) == "";
  }

  /** `get_gemini_analysis`: the default pair without an API key or when the
      model call fails; otherwise the parsed reply. */
  function GeminiAnalysis(
    apiKey: Option<string>,
    generate: FailurePrompt -> Result<string, string>,
    decode: string -> Result<ReplyDoc, string>,
    message: string, trace: string, description: string): (r: CauseFix)
    ensures apiKey.None? || apiKey == Some("") ==> r == DefaultCauseFix
    ensures apiKey.Some? && apiKey.value != "" ==>
              match generate(FailurePrompt(description, message, trace))
              case Failure(_) => r == DefaultCauseFix
              case Success(content) => r == ParseReply(decode, content)
  {
    if apiKey.None? || apiKey.value == "" then DefaultCauseFix
    else
      match generate(FailurePrompt(description, message, trace))
      case Failure(_) => DefaultCauseFix
      case Success(content) => ParseReply(decode, content)
  }

  // ---------------------------------------------------------------------
  // The report
  // ---------------------------------------------------------------------

  /** The identity of the test, with the parser's defaults filled in. */
  datatype TestSummary = TestSummary(name: string, fullName: string, description: string, status: string)

  datatype ErrorInfo = ErrorInfo(message: string, location: ErrorLocation, stage: StageInfo)

  /** A failure gets error details and an analysis; anything else a fixed
      summary line. */
  datatype Verdict = FailureReport(error: ErrorInfo, analysis: CauseFix) | PassSummary(summary: string)

  datatype DebugInfo = DebugInfo(test: TestSummary, history: HistoryInfo, verdict: Verdict)

  /** The parser's answer: the summary, or the text of the error it caught. */
  datatype ParseOutcome = Parsed(info: DebugInfo) | ParseError(message: string)

  const PassedSummary: string := "Test passed successfully. No debugging information needed."
  const ParseErrorPrefix: string := "Failed to parse Jenkins test report: "

  /** The failure test of the parser: `failed` or `broken` in any letter case. */
  predicate ReportsFailure(status: string) {
    IsFailingStatus(Lower(status))
  }

  /** `parse_jenkins_test_report` on the result of reading and decoding the
      file: a read or decoding error, or a document that is not an object,
      becomes an error message; a record becomes its summary, with error
      details and the analysis exactly when its status reports a failure. */
  function ParseJenkinsReport(
    doc: Result<JsonDoc, string>,
    apiKey: Option<string>,
    generate: FailurePrompt -> Result<string, string>,
    decode: string -> Result<ReplyDoc, string>): (r: ParseOutcome)
    ensures doc.Failure? ==> r == ParseError(ParseErrorPrefix + doc.error)
    ensures doc.Success? && doc.value.NotObject? ==>
              r == ParseError(ParseErrorPrefix + "'" + doc.value.typeName + "' object has no attribute 'get'")
    ensures doc.Success? && doc.value.Object? ==>
              var rec := doc.value.record;
              var status := rec.status.GetOr(UnknownText);
              && r.Parsed?
              && r.info.test == TestSummary(rec.name.GetOr("Unknown Test"), rec.fullName.GetOr("Unknown Full Name"),
                                            rec.description.GetOr("No description available"), status)
              && r.info.history == ExtractHistoryInfo(rec.history)
              && (r.info.verdict.FailureReport? <==> ReportsFailure(status))
              && (!ReportsFailure(status) ==> r.info.verdict == PassSummary(PassedSummary))
              && (ReportsFailure(status) ==>
                    var message := rec.statusMessage.GetOr("No status message available");
                    var trace := rec.statusTrace.GetOr(NoTraceText);
                    r.info.verdict.error == ErrorInfo(message, ExtractErrorLocation(trace), ExtractStageInfo(rec))
                    && r.info.verdict.analysis
                         == GeminiAnalysis(apiKey, generate, decode, message, trace, r.info.test.description))
  {
    match doc
    case Failure(e) => ParseError(ParseErrorPrefix + e)
    case Success(NotObject(t)) => ParseError(ParseErrorPrefix + "'" + t + "' object has no attribute 'get'")
    case Success(Object(rec)) =>
      var test := TestSummary(rec.name.GetOr("Unknown Test"), rec.fullName.GetOr("Unknown Full Name"),
                              rec.description.GetOr("No description available"), rec.status.GetOr(UnknownText));
      var verdict :=
        if ReportsFailure(test.status) then
          var message := rec.statusMessage.GetOr("No status message available");
          var trace := rec.statusTrace.GetOr(NoTraceText);
          FailureReport(ErrorInfo(message, ExtractErrorLocation(trace), ExtractStageInfo(rec)),
                        GeminiAnalysis(apiKey, generate, decode, message, trace, test.description))
        else PassSummary(PassedSummary);
      Parsed(DebugInfo(test, ExtractHistoryInfo(rec.history), verdict))
  }

  /** Lower-casing leaves a text without capital letters unchanged. */
  lemma LowerKeepsLowerCase(s: string)
    requires forall i :: 0 <= i < |s| ==> !('A' <= s[i] <= 'Z')
    ensures Lower(s) == s
  {
  }

  /** Every record the upload pipeline treats as a failure, the report
      parser treats as one too. */
  lemma UploadFailureIsReportFailure(status: string)
    requires IsFailingStatus(status)
    ensures ReportsFailure(status)
  {
    LowerKeepsLowerCase(status);
  }

  /** The converse fails: the upload pipeline compares the status exactly,
      the report parser after lower-casing, so `FAILED` is a failure only to
      the parser — the upload keeps the status as it is and records no
      failure data. */
  lemma CapitalisedFailureDiffers(data: RawRecord)
    requires data.status == Some("FAILED")
    requires CoreUtils.ProcessTestFile(data).Some?
    ensures CoreUtils.ProcessTestFile(data).value.status == "FAILED"
    ensures CoreUtils.ProcessTestFile(data).value.failureData.None?
    ensures ReportsFailure(data.status.value)
  {
    assert Lower("FAILED") == "failed";
  }

  /** A failing record without a trace is reported at an unknown location:
      the parser's placeholder trace is the one the locator skips. */
  lemma MissingTraceUnknownLocation(
    rec: RawRecord,
    apiKey: Option<string>,
    generate: FailurePrompt -> Result<string, string>,
    decode: string -> Result<ReplyDoc, string>)
    requires rec.statusTrace.None?
    requires ReportsFailure(rec.status.GetOr(UnknownText))
    ensures var r := ParseJenkinsReport(Success(Object(rec)), apiKey, generate, decode);
            r.Parsed? && r.info.verdict.FailureReport? && r.info.verdict.error.location == UnknownLocation
  {
  }
}
