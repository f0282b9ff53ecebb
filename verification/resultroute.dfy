/** The aggregation of the upload route (app/routes/result.py): every
    uploaded file is decoded, normalised, tallied under its test class,
    analysed, and its fail percentages are set. Saving to the database is
    not part of this model. */
module ResultRoute {
  import opened Wrappers
  import opened Report
  import opened CoreUtils

  /** A per-file table: test class name to its tally. */
  type Tally = map<string, ClassResult>

  /** The entry `defaultdict` creates for a class seen for the first time:
      no tests, no failures and an empty analysis. */
  const EmptyEntry: ClassResult := ClassResult(0, 0, 0, 0.0, [], Analysis([], []))

  /** `class_results[k]` on the `defaultdict`. */
  function Entry(m: Tally, k: string): ClassResult {
    if k in m then m[k] else EmptyEntry
  }

  /** `process_test_file` on any decoded document: a document that is not an
      object fails on its first `.get` and is normalised to `None`. */
  function ProcessDocument(doc: JsonDoc): (r: Option<TestInfo>)
    ensures doc.NotObject? ==> r.None?
    ensures doc.Object? ==> r == ProcessTestFile(doc.record)
  {
    match doc
    case Object(record) => ProcessTestFile(record)
    case NotObject(_) => None
  }

  /** `if test_info and test_info['class_name']`: a record with a non-empty
      class name. */
  predicate Recognised(info: Option<TestInfo>) {
    info.Some? && info.value.className.Some? && info.value.className.value != ""
  }

  /** A tally entry whose counts fit together: passes and failures are
      among the tests, and every failure has exactly one failure detail. */
  predicate WellCounted(e: ClassResult) {
    e.passed + e.failed <= e.totalTests && |e.failureDetails| == e.failed
  }

  /** What the normaliser guarantees of its output: failure data is present
      exactly on a normalised failure. */
  predicate Normalised(info: TestInfo) {
    info.failureData.Some? <==> info.status == "failed"
  }

  /** Recording one normalised record under its class: the test counts,
      a `passed` status counts as a pass, a `failed` status as a failure
      whose data (when present) is appended, stamped with the file name.
      Every other status counts only towards the total. An unrecognised
      record leaves the table as it is. */
  function Record(m: Tally, info: Option<TestInfo>, fileName: string): (r: Tally)
    ensures !Recognised(info) ==> r == m
    ensures Recognised(info) ==>
              var k := info.value.className.value;
              && r.Keys == m.Keys + {k}
              && (forall j :: j in m && j != k ==> r[j] == m[j])
    ensures Recognised(info) ==>
              var k := info.value.className.value;
              var before := Entry(m, k);
              var after := r[k];
              && after.totalTests == before.totalTests + 1
              && (info.value.status == "passed" ==>
                    after.passed == before.passed + 1 && after.failed == before.failed
                    && after.failureDetails == before.failureDetails)
              && (info.value.status == "failed" ==>
                    after.passed == before.passed && after.failed == before.failed + 1
                    && after.failureDetails == before.failureDetails
                         + (if info.value.failureData.Some?
                            then [FailureDetail(info.value.failureData.value, fileName)] else []))
              && (info.value.status != "passed" && info.value.status != "failed" ==>
                    after.passed == before.passed && after.failed == before.failed
                    && after.failureDetails == before.failureDetails)
              && after.failPercentage == before.failPercentage
              && after.analysis == before.analysis
  {
    if Recognised(info) then
      var k := info.value.className.value;
      var e := Entry(m, k);
      var counted := e.(totalTests := e.totalTests + 1);
      var e' :=
        if info.value.status == "passed" then counted.(passed := counted.passed + 1)
        else if info.value.status == "failed" then
          var failed := counted.(failed := counted.failed + 1);
          match info.value.failureData
          case Some(fd) => failed.(failureDetails := failed.failureDetails + [FailureDetail(fd, fileName)])
          case None => failed
        else counted;
      m[k := e']
    else m
  }

  /** The normaliser's output has failure data exactly on a failure. */
  lemma ProcessedIsNormalised(data: RawRecord)
    requires ProcessTestFile(data).Some?
    ensures Normalised(ProcessTestFile(data).value)
  {
  }

  /** Recording a normalised record keeps every entry well counted. */
  lemma {:induction false} RecordKeepsWellCounted(m: Tally, info: Option<TestInfo>, fileName: string)
    requires forall k :: k in m ==> WellCounted(m[k])
    requires info.Some? ==> Normalised(info.value)
    ensures var r := Record(m, info, fileName);
            forall k :: k in r ==> WellCounted(r[k])
  {
    var r := Record(m, info, fileName);
    if Recognised(info) {
      var k := info.value.className.value;
      assert WellCounted(Entry(m, k));
      assert WellCounted(r[k]);
    }
  }

  /** The loop of the route after `analyze_failures`: every class with at
      least one test gets `failed / total_tests * 100`. */
  function SetPercentages(m: Tally): (r: Tally)
    ensures r.Keys == m.Keys
    ensures forall k :: k in m && m[k].totalTests > 0 ==>
              r[k] == m[k].(failPercentage := FailPercentage(m[k].failed, m[k].totalTests))
    ensures forall k :: k in m && m[k].totalTests == 0 ==> r[k] == m[k]
  {
    MapValues(m, SetPercentage)
  }

  /** The percentage step for one class. */
  function SetPercentage(e: ClassResult): ClassResult {
    if e.totalTests > 0 then e.(failPercentage := FailPercentage(e.failed, e.totalTests)) else e
  }

  /** The route's second percentage pass changes nothing: `analyze_failures`
      has already set the same value on every class with tests. */
  lemma SetPercentagesAfterAnalysis(
    m: Tally,
    generate: Prompt -> Result<string, string>,
    decode: string -> Result<Analysis, string>)
    ensures var a := AnalyzeFailures(m, generate, decode);
            SetPercentages(a) == a
  {
    var a := AnalyzeFailures(m, generate, decode);
    var s := SetPercentages(a);
    forall k | k in a ensures s[k] == a[k] {
      if a[k].totalTests > 0 {
        assert a[k].failPercentage == FailPercentage(a[k].failed, a[k].totalTests);
      }
    }
  }

  /** The body of the route's loop for one file. `None` when the upload
      cannot be decoded (the exception is caught and the file skipped);
      otherwise the table of the file's classes after analysis. */
  function ProcessUpload(
    fileName: string,
    content: Result<JsonDoc, string>,
    generate: Prompt -> Result<string, string>,
    decode: string -> Result<Analysis, string>): (r: Option<Tally>)
    ensures content.Failure? <==> r.None?
    ensures r.Some? ==>
              var info := ProcessDocument(content.value);
              && (!Recognised(info) ==> r.value == map[])
              && (Recognised(info) ==> r.value.Keys == {info.value.className.value})
  {
    match content
    case Failure(_) => None
    case Success(doc) =>
      var tally := Record(map[], ProcessDocument(doc), fileName);
      Some(SetPercentages(AnalyzeFailures(tally, generate, decode)))
  }

  /** One record per file: the entry of a recognised file counts one test,
      is well counted, has its fail percentage set to 0 or 100, and carries
      the generated analysis exactly when the record failed. */
  lemma {:induction false} UploadEntryShape(
    fileName: string,
    content: Result<JsonDoc, string>,
    generate: Prompt -> Result<string, string>,
    decode: string -> Result<Analysis, string>)
    requires content.Success?
    requires Recognised(ProcessDocument(content.value))
    ensures var info := ProcessDocument(content.value).value;
            var e := ProcessUpload(fileName, content, generate, decode).value[info.className.value];
            && e.totalTests == 1
            && WellCounted(e)
            && e.passed == (if info.status == "passed" then 1 else 0)
            && e.failed == (if info.status == "failed" then 1 else 0)
            && e.failPercentage == (if info.status == "failed" then 100.0 else 0.0)
            && (info.status == "failed" ==>
                  e.failureDetails == [FailureDetail(info.failureData.value, fileName)]
                  && e.analysis == GenerateFailureAnalysis(generate, decode, CombinedPrompt(e.failureDetails)))
            && (info.status != "failed" ==> e.failureDetails == [] && e.analysis == Analysis([], []))
  {
    var info := ProcessDocument(content.value);
    ProcessedIsNormalised(content.value.record);
    var k := info.value.className.value;
    var tally := Record(map[], info, fileName);
    RecordKeepsWellCounted(map[], info, fileName);
    var analysed := AnalyzeFailures(tally, generate, decode);
    SetPercentagesAfterAnalysis(tally, generate, decode);
    assert ProcessUpload(fileName, content, generate, decode).value == analysed;
    var e := analysed[k];
    assert e.totalTests == 1;
    assert e.failPercentage == FailPercentage(e.failed, 1);
  }

  /** One uploaded file: its name and its decoded content, or the error
      decoding raised. */
  type Upload = (string, Result<JsonDoc, string>)

  /** The route's loop over all uploads: the table of every file that could
      be decoded, in upload order. Together, `UploadAllAppend` and the
      one-file clause fix the result: one table per decodable file, in the
      order of the files. */
  function UploadAll(
    files: seq<Upload>,
    generate: Prompt -> Result<string, string>,
    decode: string -> Result<Analysis, string>): (r: seq<Tally>)
    ensures |r| <= |files|
    ensures |r| == |files| <==> forall i :: 0 <= i < |files| ==> files[i].1.Success?
    ensures forall i :: 0 <= i < |r| ==> |r[i].Keys| <= 1
    ensures |files| == 1 ==>
              r == (if files[0].1.Success?
                    then [ProcessUpload(files[0].0, files[0].1, generate, decode).value]
                    else [])
  {
    var process := UploadStep(generate, decode);
    forall f: Upload | process(f).Some?
      ensures f.1.Success? && |process(f).value.Keys| <= 1
    {
      UploadHasAtMostOneClass(f.0, f.1, generate, decode);
    }
    CollectMeaning(files, process);
    Collect(files, process)
  }

  /** The body of the route's loop as a function of one upload. */
  function UploadStep(
    generate: Prompt -> Result<string, string>,
    decode: string -> Result<Analysis, string>): Upload -> Option<Tally>
  {
    (f: Upload) => ProcessUpload(f.0, f.1, generate, decode)
  }

  /** Uploading two batches one after the other gives the tables of the
      first batch followed by those of the second. */
  lemma UploadAllAppend(
    a: seq<Upload>,
    b: seq<Upload>,
    generate: Prompt -> Result<string, string>,
    decode: string -> Result<Analysis, string>)
    ensures UploadAll(a + b, generate, decode) == UploadAll(a, generate, decode) + UploadAll(b, generate, decode)
  {
    CollectAppend(a, b, UploadStep(generate, decode));
  }

  /** The results of `f` on the items it yields something for, in order. */
  function Collect<T, U>(items: seq<T>, f: T -> Option<U>): (r: seq<U>)
    ensures |r| <= |items|
    ensures |items| == 1 ==> r == (if f(items[0]).Some? then [f(items[0]).value] else [])
  {
    if |items| == 0 then []
    else
      match f(items[0])
      case Some(y) => [y] + Collect(items[1..], f)
      case None => Collect(items[1..], f)
  }

  /** What `Collect` keeps: as many results as items exactly when every
      item yields one, the result of every item that yields one, and
      nothing that no item yields. */
  lemma {:induction false} CollectMeaning<T, U>(items: seq<T>, f: T -> Option<U>)
    ensures var r := Collect(items, f);
            |r| == |items| <==> forall i :: 0 <= i < |items| ==> f(items[i]).Some?
    ensures var r := Collect(items, f);
            forall i :: 0 <= i < |items| && f(items[i]).Some? ==> f(items[i]).value in r
    ensures var r := Collect(items, f);
            forall j :: 0 <= j < |r| ==> exists i :: 0 <= i < |items| && f(items[i]) == Some(r[j])
    decreases |items|
  {
    if |items| > 0 {
      CollectMeaning(items[1..], f);
      assert forall i :: 1 <= i < |items| ==> items[i] == items[1..][i - 1];
    }
  }

  /** Collecting over two runs of items one after the other gives the
      results of the first run followed by those of the second; with the
      one-item clause of `Collect`, this fixes both the order and the
      number of the results. */
  lemma {:induction false} CollectAppend<T, U>(a: seq<T>, b: seq<T>, f: T -> Option<U>)
    ensures Collect(a + b, f) == Collect(a, f) + Collect(b, f)
    decreases |a|
  {
    if |a| == 0 {
      assert a + b == b;
    } else {
      CollectAppend(a[1..], b, f);
      CollectAppendStep(a, b, f);
    }
  }

  /** The inductive step of `CollectAppend`: the law for `a` follows from
      the law for `a` without its first item. */
  lemma CollectAppendStep<T, U>(a: seq<T>, b: seq<T>, f: T -> Option<U>)
    requires |a| >= 1
    requires Collect(a[1..] + b, f) == Collect(a[1..], f) + Collect(b, f)
    ensures Collect(a + b, f) == Collect(a, f) + Collect(b, f)
  {
    var ab := a + b;
    assert ab[1..] == a[1..] + b;
    CollectStep(ab, f);
    CollectStep(a, f);
  }

  /** One step of `Collect`: the result for the first item, if any, then
      the results for the rest. */
  lemma CollectStep<T, U>(items: seq<T>, f: T -> Option<U>)
    requires |items| >= 1
    ensures Collect(items, f)
            == (if f(items[0]).Some? then [f(items[0]).value] else []) + Collect(items[1..], f)
  {
  }

  /** A file's table holds at most its one class. */
  lemma UploadHasAtMostOneClass(
    fileName: string,
    content: Result<JsonDoc, string>,
    generate: Prompt -> Result<string, string>,
    decode: string -> Result<Analysis, string>)
    requires ProcessUpload(fileName, content, generate, decode).Some?
    ensures content.Success?
    ensures |ProcessUpload(fileName, content, generate, decode).value.Keys| <= 1
  {
    var t := ProcessUpload(fileName, content, generate, decode).value;
    if Recognised(ProcessDocument(content.value)) {
      var k := ProcessDocument(content.value).value.className.value;
      assert t.Keys == {k};
    }
  }
}
