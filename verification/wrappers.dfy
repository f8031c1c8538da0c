/** The failure-aware wrappers the model uses, and the errors they carry. */
module Wrappers {

  /** A possibly missing value. Inside a metric series, None is the absent
      marker (JSON null), distinct from every logged value. */
  datatype Option<+T> = None | Some(value: T)

  /** The outcome of an operation that may raise instead of returning. */
  datatype Result<+R, +E> = Success(value: R) | Failure(error: E)

  /** The errors the modelled code raises: Python's `max()` over an empty
      sequence raises ValueError. */
  datatype Error = MaxOfEmpty
}
