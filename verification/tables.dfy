/** Rows of the processed tide table and the orderings the analyzer sorts them by. */
module Tables {

  /** One row of the processed table: the "Date Time" column as a whole number
      of seconds since a fixed epoch, the raw gauge reading (third column of the
      sheet) and the derived "Modified value" the tide selection ranks by. */
  datatype Row = Row(time: int, raw: real, modified: real)

  /** `high=True` in the analyzer looks for crests (largest values first),
      `high=False` for troughs (smallest values first). */
  datatype Mode = High | Low

  /** The two sorts the analyzer performs: by timestamp ascending, and by
      modified value in the direction the mode asks for. */
  datatype SortKey = ByTime | ByValue(mode: Mode)

  const SecondsPerHour: int := 3600

  /** The quantity a sort puts in ascending order; for crests this is the
      negated value, so that the greatest value comes first. */
  function KeyOf(r: Row, key: SortKey): real
  {
    match key
    case ByTime => r.time as real
    case ByValue(High) => -r.modified
    case ByValue(Low) => r.modified
  }

  predicate SortedBy(xs: seq<Row>, key: SortKey)
  {
    forall i, j :: 0 <= i < j < |xs| ==> KeyOf(xs[i], key) <= KeyOf(xs[j], key)
  }

  /** `a` is at least as extreme as `b`: no smaller for crests, no larger for troughs. */
  predicate AtLeastAsExtreme(a: Row, b: Row, mode: Mode)
  {
    KeyOf(a, ByValue(mode)) <= KeyOf(b, ByValue(mode))
  }

  /** Absolute distance between two timestamps. */
  function Dist(a: int, b: int): nat
  {
    if a >= b then a - b else b - a
  }

  datatype Result<+T, +E> = Success(value: T) | Failure(error: E)
}
