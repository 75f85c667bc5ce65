/** Failure-compatible wrapper shared by every stage of the pipeline. */
module Wrappers {

  /** A value that may be missing: a failed parse, an unmapped code, a pandas NaN or a SQL NULL. */
  datatype Option<+T> = None | Some(value: T) {

    /** The value when present, `default` otherwise. */
    function GetOr(default: T): T {
      match this
      case Some(v) => v
      case None => default
    }
  }
}
