/**
 * The status values the monitor works with: the result codes of a polling
 * cycle and their display names.
 */
module Status {

  /** Outcome of a refresh cycle. There is no "no result yet" value: the
      process starts in `Error` with an empty message. */
  datatype ApiResult = Error | Invalid | Success | Fail

  /** Capacity of every message buffer, not counting the terminating NUL. */
  const MessageMax: nat := 255

  /** Display name of a result, as used in the log and the history list. */
  function ApiResultToString(r: ApiResult): (s: string)
    ensures s != []
  {
    match r
    case Success => "Success"
    case Fail => "Fail"
    case Error => "Error"
    case Invalid => "Invalid"
  }

  /** The names tell the results apart. */
  lemma ApiResultNamesDistinct(a: ApiResult, b: ApiResult)
    ensures ApiResultToString(a) == ApiResultToString(b) ==> a == b
  {
  }
}
