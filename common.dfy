/** Failure-compatible wrappers and the error kinds the metric engine raises. */
module Common {

  datatype Option<+T> = None | Some(value: T) {

    /** The value, or `default` when absent (Python's `dict.get(key, default)`). */
    function GetOr(default: T): T
    {
      match this
      case Some(v) => v
      case None => default
    }
  }

  /** The exceptions the engine raises; every one of them is fatal. */
  datatype Error =
    | UnsupportedDownsampling
    | UnsupportedValueChooser(chooser: string)
    | NegativeSampleSize(minReads: int)
    | NothingToConcatenate
    | UnsupportedIntersection(intersection: string)
    | MissingColumn(column: string)
    | UnsupportedMetric(metric: string)

  datatype Result<+T> = Ok(value: T) | Err(error: Error) {

    predicate IsFailure() {
      Err?
    }

    function PropagateFailure<U>(): Result<U>
      requires Err?
    {
      Err(error)
    }

    function Extract(): T
      requires Ok?
    {
      value
    }
  }
}
