/** The record normaliser, the stack-trace locator and the failure analysis of
    the upload pipeline (app/core/utils.py). */
module CoreUtils {
  import opened Wrappers
  import opened PyStr
  import opened Report
  import opened JsonText

  // ---------------------------------------------------------------------
  // Data model
  // ---------------------------------------------------------------------

  /** Where a failure was raised, read off one stack-trace frame. The line
      number stays text: some runtimes print markers instead of numbers. */
  datatype FailureLocation = FailureLocation(file: string, line: string, methodName: string, fullStackLine: string)

  /** What the normaliser keeps of a failing record. */
  datatype FailureData = FailureData(
    message: string,
    trace: string,
    location: Option<FailureLocation>,
    testMethod: string,
    fullTestName: string)

  /** The normalised record: grouping key, status and failure data. */
  datatype TestInfo = TestInfo(className: Option<string>, status: string, failureData: Option<FailureData>)

  /** A failure detail as stored with its class: the failure data stamped
      with the name of the uploaded file it came from. */
  datatype FailureDetail = FailureDetail(data: FailureData, testFile: string)

  datatype Cause = Cause(cause: string, confidence: string, technicalDetails: string)

  datatype Solution = Solution(solution: string, priority: string, implementationSteps: seq<string>)

  datatype Analysis = Analysis(causes: seq<Cause>, solutions: seq<Solution>)

  /** The per-class tally the upload route builds and the analysis fills in. */
  datatype ClassResult = ClassResult(
    totalTests: nat,
    passed: nat,
    failed: nat,
    failPercentage: real,
    failureDetails: seq<FailureDetail>,
    analysis: Analysis)

  /** The two texts interpolated into the analysis prompt; the instruction
      text around them belongs to the abstract generator. */
  datatype Prompt = Prompt(message: string, trace: string)

  // ---------------------------------------------------------------------
  // Grouping key
  // ---------------------------------------------------------------------

  predicate IsClassLabel(l: Label) {
    l.name == Some("testClass")
  }

  /** Every label before index `i` has a name, and none is `testClass`. */
  ghost predicate ScannedPast(labels: seq<Label>, i: int) {
    forall j :: 0 <= j < i && j < |labels| ==> labels[j].name.Some? && !IsClassLabel(labels[j])
  }

  /** The loop over `labels`: the value of the first `testClass` label, or
      `None` when there is none. Reading a missing `name`, or a missing
      `value` of that first `testClass` label, raises `KeyError`. */
  function FindClassName(labels: seq<Label>): (r: Result<Option<string>, string>)
    ensures r == Success(None) <==> ScannedPast(labels, |labels|)
    ensures forall i :: 0 <= i < |labels| && ScannedPast(labels, i) && IsClassLabel(labels[i]) ==>
              (labels[i].value.Some? ==> r == Success(labels[i].value)) &&
              (labels[i].value.None? ==> r.Failure?)
    ensures forall i :: 0 <= i < |labels| && ScannedPast(labels, i) && labels[i].name.None? ==> r.Failure?
  {
    if |labels| == 0 then Success(None)
    else
      var l := labels[0];
      match l.name
      case None => Failure("KeyError: 'name'")
      case Some(n) =>
        if n == "testClass" then
          (match l.value
           case None => Failure("KeyError: 'value'")
           case Some(v) => Success(Some(v)))
        else
          var r := FindClassName(labels[1..]);
          assert forall i :: 1 <= i <= |labels| ==> (ScannedPast(labels, i) <==> ScannedPast(labels[1..], i - 1));
          r
  }

  // ---------------------------------------------------------------------
  // Stack-trace locator
  // ---------------------------------------------------------------------

  /** A line the locator tries to parse: it contains `at `, `(` and `)`. */
  predicate IsFrameCandidate(line: string) {
    Contains(line, "at ") && Contains(line, "(") && Contains(line, ")")
  }

  /** `line.split('(')[1].split(')')[0]`: the text after the first `(`, up to
      the next `)` or `(`. */
  function ParenPart(line: string): string
    requires Contains(line, "(")
  {
    Split(Split(line, "(")[1], ")")[0]
  }

  /** `line.split('at ')[1].split('(')[0].strip()`: the text between the
      first and the second `at ` (or the end), cut at its first `(`, and
      stripped. */
  function MethodPart(line: string): string
    requires Contains(line, "at ")
  {
    Strip(Split(Split(line, "at ")[1], "(")[0])
  }

  /** The location one line describes, if it is a frame whose parenthesised
      part has a `:`. The guards make every split index exist, so the
      source's `except: continue` never fires and the parse is total. */
  function LocateLine(line: string): (r: Option<FailureLocation>)
    ensures r.Some? <==> IsFrameCandidate(line) && Contains(ParenPart(line), ":")
  {
    if IsFrameCandidate(line) then
      var fileParts := Split(ParenPart(line), ":");
      if |fileParts| >= 2 then
        Some(FailureLocation(fileParts[0], fileParts[1], MethodPart(line), Strip(line)))
      else None
    else None
  }

  /** What a located line yields: `file` is the parenthesised part up to its
      first `:`, `line` the text from there to the next `:` or the end (both
      free of `:`), `methodName` the text between the first and the second
      `at ` (or the end), cut at its first `(` and stripped, and
      `fullStackLine` the stripped line. */
  lemma LocateLineFields(line: string)
    requires LocateLine(line).Some?
    ensures var loc := LocateLine(line).value;
            var pp := ParenPart(line);
            && LeadingFields(pp, ':', loc.file, loc.line)
            && loc.methodName == MethodPart(line)
            && StrippedOf(line, loc.fullStackLine)
  {
    LocatedFileAndLine(line);
    StripIsStripped(line);
  }

  /** The `file` and `line` of a located line are the first two pieces of
      its parenthesised part split on `:`. */
  lemma LocatedFileAndLine(line: string)
    requires LocateLine(line).Some?
    ensures var loc := LocateLine(line).value;
            var pp := ParenPart(line);
            && LeadingFields(pp, ':', loc.file, loc.line)
  {
    var pp := ParenPart(line);
    var f := Split(pp, ":");
    assert LocateLine(line).value.file == f[0] && LocateLine(line).value.line == f[1];
    FirstTwoFields(pp, ':');
  }

  /** A first-match scan from index `from` on: the result of the first item
      for which `f` yields something; items for which it yields nothing are
      skipped. */
  function FirstSome<T, U>(f: T -> Option<U>, items: seq<T>, from: nat): (r: Option<U>)
    requires from <= |items|
    ensures r.None? <==> forall i :: from <= i < |items| ==> f(items[i]).None?
    ensures r.Some? ==>
              exists i :: from <= i < |items| && f(items[i]) == r &&
                forall j :: from <= j < i ==> f(items[j]).None?
    decreases |items| - from
  {
    if from == |items| then None
    else if f(items[from]).Some? then f(items[from])
    else FirstSome(f, items, from + 1)
  }

  /** The failure location of a whole trace: none for an empty trace,
      otherwise the location of the first of its `\n`-separated lines that
      yields one. */
  function LocateFailure(trace: string): (r: Option<FailureLocation>)
    ensures trace == "" ==> r.None?
    ensures trace != "" ==>
              var lines := Split(trace, "\n");
              && (r.None? <==> forall i :: 0 <= i < |lines| ==> LocateLine(lines[i]).None?)
              && (r.Some? ==>
                    exists i :: 0 <= i < |lines| && LocateLine(lines[i]) == r &&
                      forall j :: 0 <= j < i ==> LocateLine(lines[j]).None?)
  {
    if trace == "" then None else FirstSome(LocateLine, Split(trace, "\n"), 0)
  }

  /** The Java frame line `ws + "at " + m + "(" + file + ":" + ln + ")"`
      with nothing inside it that the locator's splits would cut at. */
  predicate PlainFrame(ws: string, m: string, file: string, ln: string) {
    && (forall i :: 0 <= i < |ws| ==> IsSpace(ws[i]))
    && ' ' !in m && '(' !in m && (m == [] || (!IsSpace(m[0]) && !IsSpace(m[|m| - 1])))
    && ' ' !in file && '(' !in file && ')' !in file && ':' !in file
    && ' ' !in ln && '(' !in ln && ')' !in ln && ':' !in ln
  }

  /** A frame without its indentation: `at m(file:ln)`. */
  function FrameText(m: string, file: string, ln: string): string {
    "at " + m + "(" + file + ":" + ln + ")"
  }

  /** On a plain frame the locator reads back exactly the file, line and
      method the frame was built from, and keeps the unindented frame. */
  lemma LocateJavaFrame(ws: string, m: string, file: string, ln: string)
    requires PlainFrame(ws, m, file, ln)
    ensures LocateLine(ws + FrameText(m, file, ln)) == Some(FailureLocation(file, ln, m, FrameText(m, file, ln)))
  {
    var frame := FrameText(m, file, ln);
    JavaFrameParts(ws, m, file, ln);
    LocateFromParts(ws + frame, file + ":" + ln, file, ln, m, frame);
  }

  /** The pieces the locator cuts a plain frame into. */
  lemma JavaFrameParts(ws: string, m: string, file: string, ln: string)
    requires PlainFrame(ws, m, file, ln)
    ensures var line := ws + FrameText(m, file, ln);
            && IsFrameCandidate(line)
            && ParenPart(line) == file + ":" + ln
            && Split(file + ":" + ln, ":") == [file, ln]
            && MethodPart(line) == m
            && Strip(line) == FrameText(m, file, ln)
  {
    FrameCallParts(ws, m, file, ln);
    FrameTextParts(ws, m, file, ln);
  }

  /** The call parts of an indented frame: it is a candidate line, its
      parenthesised part is the position, and its method part is `m`. */
  lemma FrameCallParts(ws: string, m: string, file: string, ln: string)
    requires PlainFrame(ws, m, file, ln)
    ensures var line := ws + FrameText(m, file, ln);
            && IsFrameCandidate(line)
            && ParenPart(line) == file + ":" + ln
            && MethodPart(line) == m
  {
    ParenOfFrame(ws, m, file, ln);
    MethodOfFrame(ws, m, file, ln);
    CloseOfFrame(ws, m, file, ln);
  }

  /** The texts of an indented frame: its position splits into file and
      line, and stripping it leaves the frame itself. */
  lemma FrameTextParts(ws: string, m: string, file: string, ln: string)
    requires PlainFrame(ws, m, file, ln)
    ensures Split(file + ":" + ln, ":") == [file, ln]
    ensures Strip(ws + FrameText(m, file, ln)) == FrameText(m, file, ln)
  {
    FrameTextEnds(m, file, ln);
    FrameStrip(ws, FrameText(m, file, ln));
    FrameFields(file, ln);
  }

  /** A frame starts with `a` and ends with `)`. */
  lemma FrameTextEnds(m: string, file: string, ln: string)
    ensures var frame := FrameText(m, file, ln);
            |frame| > 0 && frame[0] == 'a' && frame[|frame| - 1] == ')'
  {
  }

  /** A trace whose first line is a plain frame is located at that frame,
      whatever follows it. */
  lemma LocateFirstFrame(ws: string, m: string, file: string, ln: string, rest: string)
    requires PlainFrame(ws, m, file, ln)
    requires '\n' !in ws && '\n' !in m && '\n' !in file && '\n' !in ln
    ensures LocateFailure(ws + FrameText(m, file, ln) + "\n" + rest)
            == Some(FailureLocation(file, ln, m, FrameText(m, file, ln)))
  {
    var line := ws + FrameText(m, file, ln);
    assert line == ws + "at " + m + "(" + file + ":" + ln + ")";
    assert '\n' !in line;
    SplitAtChar(line, '\n', rest);
    LocateJavaFrame(ws, m, file, ln);
    var lines := Split(line + "\n" + rest, "\n");
    assert lines[0] == line;
  }

  /** The parenthesised part of a plain frame is its `file:ln`. */
  lemma ParenOfFrame(ws: string, m: string, file: string, ln: string)
    requires PlainFrame(ws, m, file, ln)
    ensures Contains(ws + FrameText(m, file, ln), "(")
    ensures ParenPart(ws + FrameText(m, file, ln)) == file + ":" + ln
  {
    var fp := file + ":" + ln;
    var pre := ws + "at " + m;
    var tail := fp + ")";
    assert ws + FrameText(m, file, ln) == pre + "(" + tail;
    SplitAtChar(pre, '(', tail);
    SplitNoChar(tail, '(');
    assert tail == fp + ")" + "";
    SplitAtChar(fp, ')', "");
  }

  /** The method part of a plain frame is its method name. */
  lemma MethodOfFrame(ws: string, m: string, file: string, ln: string)
    requires PlainFrame(ws, m, file, ln)
    ensures Contains(ws + FrameText(m, file, ln), "at ")
    ensures MethodPart(ws + FrameText(m, file, ln)) == m
  {
    var fp := file + ":" + ln;
    assert ws + FrameText(m, file, ln) == ws + "at " + m + "(" + (fp + ")");
    FrameMethod(ws, m, fp + ")");
  }

  /** The stripped text between `at ` and the next `(`. */
  lemma FrameMethod(ws: string, m: string, rest: string)
    requires forall i :: 0 <= i < |ws| ==> IsSpace(ws[i])
    requires ' ' !in m && ' ' !in rest && '(' !in m
    requires m == [] || (!IsSpace(m[0]) && !IsSpace(m[|m| - 1]))
    ensures Contains(ws + "at " + m + "(" + rest, "at ")
    ensures MethodPart(ws + "at " + m + "(" + rest) == m
  {
    var body := m + "(" + rest;
    assert ws + "at " + m + "(" + rest == ws + "at " + body;
    FrameMarker(ws, body);
    SplitAtChar(m, '(', rest);
  }

  /** The first `at ` of an indented frame ends its indentation; the
      body, having no space, holds no further `at `. */
  lemma FrameMarker(ws: string, body: string)
    requires forall i :: 0 <= i < |ws| ==> IsSpace(ws[i])
    requires ' ' !in body
    ensures Contains(ws + "at " + body, "at ")
    ensures Split(ws + "at " + body, "at ") == [ws, body]
  {
    var line := ws + "at " + body;
    assert OccursAt(line, "at ", |ws|) by { assert line[|ws|..|ws| + 3] == "at "; }
    forall j: nat | j < |ws| ensures !OccursAt(line, "at ", j) {
      assert line[j] == ws[j];
      if j + 3 <= |line| { assert line[j..j + 3][0] == line[j]; }
    }
    MissingCharNoOccurrence(body, "at ", 2);
    assert Find(line, "at ") == |ws|;
    assert line[..|ws|] == ws;
    assert line[|ws| + 3..] == body;
  }

  /** A frame has a `)`. */
  lemma CloseOfFrame(ws: string, m: string, file: string, ln: string)
    ensures Contains(ws + FrameText(m, file, ln), ")")
  {
    var fp := file + ":" + ln;
    assert ws + FrameText(m, file, ln) == ws + "at " + m + "(" + fp + ")" + "";
    ContainsInside(ws + "at " + m + "(" + fp, ")", "");
  }

  /** `file:ln` splits back into its two fields. */
  lemma FrameFields(file: string, ln: string)
    requires ':' !in file && ':' !in ln
    ensures Split(file + ":" + ln, ":") == [file, ln]
  {
    SplitAtChar(file, ':', ln);
    SplitNoChar(ln, ':');
  }

  /** Stripping an indented frame removes just the indentation. */
  lemma FrameStrip(ws: string, frame: string)
    requires forall i :: 0 <= i < |ws| ==> IsSpace(ws[i])
    requires frame != [] && !IsSpace(frame[0]) && !IsSpace(frame[|frame| - 1])
    ensures Strip(ws + frame) == frame
  {
    TrimStartSpaces(ws, frame);
  }

  /** The locator put together from its parts, with the line kept abstract. */
  lemma LocateFromParts(line: string, fp: string, file: string, ln: string, m: string, frame: string)
    requires IsFrameCandidate(line)
    requires ParenPart(line) == fp && Split(fp, ":") == [file, ln]
    requires MethodPart(line) == m && Strip(line) == frame
    ensures LocateLine(line) == Some(FailureLocation(file, ln, m, frame))
  {
  }

  // ---------------------------------------------------------------------
  // Normaliser
  // ---------------------------------------------------------------------

  /** `failed` and `broken` become `failed`; every other status passes through. */
  function NormalizeStatus(status: string): (r: string)
    ensures r == "failed" <==> IsFailingStatus(status)
    ensures !IsFailingStatus(status) ==> r == status
    ensures r != "broken"
  {
    if IsFailingStatus(status) then "failed" else status
  }

  /** `process_test_file`: `None` when reading the labels raises. */
  function ProcessTestFile(data: RawRecord): (r: Option<TestInfo>)
    ensures r.None? <==> FindClassName(data.labels).Failure?
    ensures r.Some? ==> r.value.className == FindClassName(data.labels).value
    ensures r.Some? ==>
              var raw := data.status.GetOr("");
              && (IsFailingStatus(raw) ==> r.value.status == "failed")
              && (!IsFailingStatus(raw) ==> r.value.status == raw)
              && (r.value.failureData.Some? <==> IsFailingStatus(raw))
    ensures r.Some? && r.value.failureData.Some? ==>
              var fd := r.value.failureData.value;
              && fd.message == data.statusMessage.GetOr("")
              && fd.trace == data.statusTrace.GetOr("")
              && fd.testMethod == data.name.GetOr("")
              && fd.fullTestName == data.fullName.GetOr("")
              && fd.location == LocateFailure(fd.trace)
              && (fd.trace == "" ==> fd.location.None?)
  {
    match FindClassName(data.labels)
    case Failure(_) => None
    case Success(className) =>
      var status := data.status.GetOr("");
      var trace := data.statusTrace.GetOr("");
      var failureData :=
        if IsFailingStatus(status) then
          Some(FailureData(data.statusMessage.GetOr(""), trace, LocateFailure(trace),
                           data.name.GetOr(""), data.fullName.GetOr("")))
        else None;
      Some(TestInfo(className, NormalizeStatus(status), failureData))
  }

  /** A failing record whose trace starts with a plain frame is normalised
      with that frame as its failure location. */
  lemma NormalisedFrameLocation(data: RawRecord, ws: string, m: string, file: string, ln: string, rest: string)
    requires FindClassName(data.labels).Success?
    requires IsFailingStatus(data.status.GetOr(""))
    requires data.statusTrace == Some(ws + FrameText(m, file, ln) + "\n" + rest)
    requires PlainFrame(ws, m, file, ln)
    requires '\n' !in ws && '\n' !in m && '\n' !in file && '\n' !in ln
    ensures ProcessTestFile(data).Some?
    ensures ProcessTestFile(data).value.failureData.Some?
    ensures ProcessTestFile(data).value.failureData.value.location
            == Some(FailureLocation(file, ln, m, FrameText(m, file, ln)))
  {
    LocateFirstFrame(ws, m, file, ln, rest);
  }

  // ---------------------------------------------------------------------
  // Failure analysis
  // ---------------------------------------------------------------------

  const NoJsonError: string := "No valid JSON found in response"

  /** The analysis returned whenever the model call or the reply parsing
      fails: one low-confidence cause carrying the error text and one
      low-priority solution. */
  function FallbackAnalysis(error: string): Analysis {
    Analysis(
      [Cause("Error analyzing failures", "low", error)],
      [Solution("Unable to generate solutions", "low", ["Check the error logs"])])
  }

  /** The fixed shape of a fallback analysis. */
  predicate IsFallback(a: Analysis, error: string) {
    && |a.causes| == 1 && a.causes[0].confidence == "low" && a.causes[0].technicalDetails == error
    && |a.solutions| == 1 && a.solutions[0].priority == "low"
    && a.solutions[0].implementationSteps == ["Check the error logs"]
  }

  /** `generate_failure_analysis`: one model call, then the span from the
      first `{` through the last `}` is decoded. The end index is
      `rfind('}') + 1`, never -1, so only a missing `{` takes the
      "no JSON" branch; a reply whose `}`s all precede its first `{` gives
      an empty span, which the decoder rejects. Never raises. */
  function GenerateFailureAnalysis(
    generate: Prompt -> Result<string, string>,
    decode: string -> Result<Analysis, string>,
    prompt: Prompt): (r: Analysis)
    ensures generate(prompt).Failure? ==> r == FallbackAnalysis(generate(prompt).error)
    ensures generate(prompt).Success? ==>
              var text := generate(prompt).value;
              && (!Contains(text, "{") ==> r == FallbackAnalysis(NoJsonError))
              && (Contains(text, "{") && RFind(text, "}") < Find(text, "{") ==>
                    r == FallbackAnalysis(EmptyInputError))
              && (Contains(text, "{") && Find(text, "{") < RFind(text, "}") ==>
                    var span := text[Find(text, "{")..RFind(text, "}") + 1];
                    r == (match decode(span)
                          case Success(a) => a
                          case Failure(e) => FallbackAnalysis(e)))
  {
    match generate(prompt)
    case Failure(e) => FallbackAnalysis(e)
    case Success(text) =>
      var startIdx := Find(text, "{");
      var endIdx := RFind(text, "}") + 1;
      if startIdx != -1 && endIdx != -1 then
        match Loads(decode, BraceSpan(text))
        case Success(a) => a
        case Failure(e) => FallbackAnalysis(e)
      else FallbackAnalysis(NoJsonError)
  }

  /** Whatever the model call and the decoder do, the analysis is either the
      decoder's own result for some text or a fallback of the fixed shape. */
  lemma AnalysisNeverRaises(
    generate: Prompt -> Result<string, string>,
    decode: string -> Result<Analysis, string>,
    prompt: Prompt)
    ensures var r := GenerateFailureAnalysis(generate, decode, prompt);
            (exists e :: IsFallback(r, e)) || (exists t :: decode(t) == Success(r))
  {
    var r := GenerateFailureAnalysis(generate, decode, prompt);
    match generate(prompt)
    case Failure(e) =>
      assert IsFallback(r, e);
    case Success(text) =>
      if !Contains(text, "{") {
        assert IsFallback(r, NoJsonError);
      } else {
        var span := BraceSpan(text);
        match Loads(decode, span)
        case Success(a) =>
          assert decode(span) == Success(r);
        case Failure(e) =>
          assert IsFallback(r, e);
      }
  }

  /** The messages of the failure details, in order. */
  function Messages(details: seq<FailureDetail>): seq<string> {
    seq(|details|, i requires 0 <= i < |details| => details[i].data.message)
  }

  /** The traces of the failure details, in order. */
  function Traces(details: seq<FailureDetail>): seq<string> {
    seq(|details|, i requires 0 <= i < |details| => details[i].data.trace)
  }

  /** The merged prompt of one class: all messages joined by newlines, and
      all traces joined by newlines. */
  function CombinedPrompt(details: seq<FailureDetail>): (r: Prompt)
    ensures |details| == 1 ==> r == Prompt(details[0].data.message, details[0].data.trace)
  {
    Prompt(Join(Messages(details), "\n"), Join(Traces(details), "\n"))
  }

  /** The merged prompt loses nothing: splitting its two texts at newlines
      gives the lines of every message, then the lines of every trace, in
      the order of the details. Multi-line traces included. */
  lemma CombinedPromptKeepsOrder(details: seq<FailureDetail>)
    requires |details| >= 1
    ensures Split(CombinedPrompt(details).message, "\n") == SplitEach(Messages(details), '\n')
    ensures Split(CombinedPrompt(details).trace, "\n") == SplitEach(Traces(details), '\n')
  {
    SplitJoinEach(Messages(details), '\n');
    SplitJoinEach(Traces(details), '\n');
  }

  /** When no message and no trace spans several lines, splitting the
      merged prompt gives back exactly the messages and the traces. */
  lemma CombinedPromptOneLineEach(details: seq<FailureDetail>)
    requires |details| >= 1
    requires forall i :: 0 <= i < |details| ==> !Contains(details[i].data.message, "\n")
    requires forall i :: 0 <= i < |details| ==> !Contains(details[i].data.trace, "\n")
    ensures Split(CombinedPrompt(details).message, "\n") == Messages(details)
    ensures Split(CombinedPrompt(details).trace, "\n") == Traces(details)
  {
    SplitJoin(Messages(details), '\n');
    SplitJoin(Traces(details), '\n');
  }

  /** `failed / total_tests * 100` as an exact ratio. */
  function FailPercentage(failed: nat, total: nat): (r: real)
    requires total > 0
    ensures r * (total as real) == (failed as real) * 100.0
    ensures failed <= total ==> 0.0 <= r <= 100.0
  {
    (failed as real) / (total as real) * 100.0
  }

  /** One iteration of the loop in `analyze_failures`. */
  function AnalyzeEntry(
    e: ClassResult,
    generate: Prompt -> Result<string, string>,
    decode: string -> Result<Analysis, string>): (r: ClassResult)
    ensures r.totalTests == e.totalTests && r.passed == e.passed && r.failed == e.failed
    ensures r.failureDetails == e.failureDetails
    ensures e.totalTests == 0 ==> r == e
    ensures e.totalTests > 0 ==> r.failPercentage == FailPercentage(e.failed, e.totalTests)
    ensures |e.failureDetails| == 0 ==> r.analysis == e.analysis
    ensures e.totalTests > 0 && |e.failureDetails| > 0 ==>
              r.analysis == GenerateFailureAnalysis(generate, decode, CombinedPrompt(e.failureDetails))
  {
    if e.totalTests > 0 then
      var withPercentage := e.(failPercentage := FailPercentage(e.failed, e.totalTests));
      if |e.failureDetails| > 0 then
        withPercentage.(analysis := GenerateFailureAnalysis(generate, decode, CombinedPrompt(e.failureDetails)))
      else withPercentage
    else e
  }

  /** `analyze_failures`: the same classes, the same counts and details; a
      non-empty class gets its fail percentage, and a class with failure
      details gets the analysis of its merged prompt. */
  function AnalyzeFailures(
    m: map<string, ClassResult>,
    generate: Prompt -> Result<string, string>,
    decode: string -> Result<Analysis, string>): (r: map<string, ClassResult>)
    ensures r.Keys == m.Keys
    ensures forall k :: k in m ==>
              && r[k].totalTests == m[k].totalTests && r[k].passed == m[k].passed
              && r[k].failed == m[k].failed && r[k].failureDetails == m[k].failureDetails
    ensures forall k :: k in m && m[k].totalTests == 0 ==> r[k] == m[k]
    ensures forall k :: k in m && m[k].totalTests > 0 ==>
              r[k].failPercentage == FailPercentage(m[k].failed, m[k].totalTests)
    ensures forall k :: k in m && |m[k].failureDetails| == 0 ==> r[k].analysis == m[k].analysis
    ensures forall k :: k in m && m[k].totalTests > 0 && |m[k].failureDetails| > 0 ==>
              r[k].analysis == GenerateFailureAnalysis(generate, decode, CombinedPrompt(m[k].failureDetails))
  {
    MapValues(m, e => AnalyzeEntry(e, generate, decode))
  }

  /** Applies `f` to every value of `m`, keeping the keys. */
  function MapValues<K, V>(m: map<K, V>, f: V -> V): (r: map<K, V>)
    ensures r.Keys == m.Keys
    ensures forall k :: k in m ==> r[k] == f(m[k])
  {
    map k | k in m :: f(m[k])
  }
}
