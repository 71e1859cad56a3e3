/** The three ways a dictionary operation can fail. The C library prints a
    diagnostic and terminates the process with a distinct exit status for
    each; here they are ordinary values returned to the caller. */
module Errors {

  /** Reading an empty dictionary, a missing key, a position out of range. */
  datatype Error = EmptyContainer | KeyNotFound | IndexOutOfRange

  /** Either the operation's result or the reason it failed. */
  datatype Result<+T> = Ok(value: T) | Err(error: Error)

  /** The process exit status the C library uses for each failure
      (DICT_EMPTY, NO_KEY and DICT_INDEX_ERROR). */
  function ExitCode(e: Error): (r: int)
    ensures r in {5000, 5001, 5003}
  {
    match e
    case EmptyContainer => 5000
    case KeyNotFound => 5001
    case IndexOutOfRange => 5003
  }

  /** Each failure has its own exit status, so the status identifies it. */
  lemma ExitCodesIdentifyErrors(a: Error, b: Error)
    ensures ExitCode(a) == ExitCode(b) ==> a == b
    ensures 5000 <= ExitCode(a) <= 5003
  {
  }
}
