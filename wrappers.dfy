/** The optional-value type shared by the profiler and the dataset registry. */
module Wrappers {

  /** A value that may be missing: a null cell of a column, or a lookup that found nothing. */
  datatype Option<+T> = None | Some(value: T)

}
