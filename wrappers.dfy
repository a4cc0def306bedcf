/** Absent values and failures, shared by every stage of the pipeline. */
module Wrappers {

  datatype Option<+T> = None | Some(value: T) {
    function GetOr(default: T): T {
      match this
      case Some(v) => v
      case None => default
    }
  }

  /** The exceptions the pipeline raises, by kind; the string names the artifact. */
  datatype Error =
    | FileNotFound(what: string)
    | ValueError(what: string)
    | AssertionFailed(what: string)
    | RegexError(what: string)
    | ParseError(what: string)

  datatype Result<+T> = Success(value: T) | Failure(error: Error)
}
