/** The dictionaries that flow between the evaluator, the summary and the
    rules: venv records and criteria. A key that a dictionary may lack is
    an `Option` field whose `None` is the missing key. */
module Records {
  import opened Wrappers
  import opened FileTree

  /** The `"status"` value of a record. */
  datatype Status = Keep | Remove | Error | Other(text: string)

  /** One reason to keep a venv, in the order the evaluator lists them. */
  datatype KeepTag = AgeBelowThreshold | SizeBelowThreshold | AppearsActive

  /** The `"reason"` value: the kept-because reasons joined by `"; "`, the
      `"unused for …"` text (with the size appended when it is large), or
      the `"evaluation error: …"` text. Numbers inside the texts are left
      out; the tags say which phrases appear, in order. */
  datatype Reason =
    | NoReason
    | KeepReasons(tags: seq<KeepTag>)
    | UnusedFor(sizeNoted: bool)
    | EvaluationError

  /** A venv record. `ageTenths` is `age_days` in tenths of a day (the
      evaluator rounds it to one decimal) and `sizeMbHundredths` is
      `size_mb` in hundredths of a MiB; the three time fields are the
      formatted timestamps, compared as strings. */
  datatype Record = Record(
    path: Path,
    name: Option<string>,
    lastAccessed: Option<string>,
    lastModified: Option<string>,
    created: Option<string>,
    sizeBytes: Option<int>,
    sizeMbHundredths: Option<int>,
    ageTenths: Option<int>,
    isActive: Option<bool>,
    status: Status,
    reason: Reason)

  /** The criteria dictionary: `min_age_days`, `unused_only` and the
      optional `min_size_mb`. */
  datatype Criteria = Criteria(minAgeDays: Option<int>, unusedOnly: Option<bool>, minSizeMb: Option<int>)
}
