/**
 * The answers of the Express handlers: a status code and, for the success
 * statuses, the JSON payload. Message texts are not modelled; the status
 * code carries the outcome.
 */
module Http {
  datatype Reply<+T> = Success(status: nat, body: T) | Failure(status: nat)
  {
    function Status(): nat {
      match this
      case Success(s, _) => s
      case Failure(s) => s
    }
  }
}
