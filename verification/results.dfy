/** Outcomes of the pool service's operations. An operation either commits
    a value (usually the next snapshot of the persisted pool collection) or
    reports an error; it never does both, so a failed operation cannot leave
    a partial write behind. */
module Results {

  /** A value that may be absent (a missing JSON field). */
  datatype Option<+T> = None | Some(value: T) {

    /** The value, or `default` when absent. */
    function GetOr(default: T): T {
      match this
      case Some(v) => v
      case None => default
    }
  }

  /** Either the committed value or the error the operation raised. */
  datatype Result<+T, +E> = Ok(value: T) | Err(error: E)
}
