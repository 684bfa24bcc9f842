/** Option and Result: the "missing" cell marker and the error returns of the pipeline. */
module Wrappers {

  /** A cell value that may be missing (pandas shows a missing cell as NaN). */
  datatype Option<+T> = None | Some(value: T)

  /** Either a value or the error that the source raises instead of returning. */
  datatype Result<+R, +E> = Success(value: R) | Failure(error: E)
}
