/** The shape of one deserialised test-report record, as both the upload
    pipeline and the standalone report parser read it. A key whose default
    is an empty object, an empty list or 0 is stored as that default (an
    absent key and a key holding the default are read the same way); a
    string key whose default differs between readers stays an `Option`. */
module Report {
  import opened Wrappers

  /** One entry of `labels`; either key may be missing. */
  datatype Label = Label(name: Option<string>, value: Option<string>)

  /** One entry of `beforeStages` or `afterStages`, or the `testStage` object. */
  datatype Stage = Stage(name: Option<string>, status: Option<string>)

  /** One entry of `extra.history.items`, most recent run first. */
  datatype HistoryItem = HistoryItem(status: Option<string>)

  /** `extra.history.statistic`: absent counts read as 0. */
  datatype Statistic = Statistic(total: int, passed: int)

  /** `extra.history`. */
  datatype History = History(statistic: Statistic, items: seq<HistoryItem>)

  datatype RawRecord = RawRecord(
    status: Option<string>,
    statusMessage: Option<string>,
    statusTrace: Option<string>,
    name: Option<string>,
    fullName: Option<string>,
    description: Option<string>,
    labels: seq<Label>,
    beforeStages: seq<Stage>,
    testStage: Stage,
    afterStages: seq<Stage>,
    history: History)

  /** A decoded JSON document: a test record when it is an object, and
      otherwise only the Python type name of the value (`list`, `str`, ...). */
  datatype JsonDoc = Object(record: RawRecord) | NotObject(typeName: string)

  /** The two raw statuses every reader treats as a failure. */
  predicate IsFailingStatus(status: string) {
    status == "failed" || status == "broken"
  }
}
