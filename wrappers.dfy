/** Optional values (a pandas cell that may be NaN) and results (a call that may raise). */
module Wrappers {

  /** `None` stands for a missing cell (NaN, NaT); `Some(v)` for a present one. */
  datatype Option<+T> = None | Some(value: T) {

    /** The behaviour of `fillna(default)` on one cell. */
    function GetOr(default: T): T {
      match this
      case Some(v) => v
      case None => default
    }
  }

  /** `Failure` stands for an exception that aborts the call. */
  datatype Result<+R, +E> = Success(value: R) | Failure(error: E)
}
