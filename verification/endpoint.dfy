/** What the OLAP endpoints do around a query: hand the statement to the XMLA
    service, and turn its answer or any exception caught by the `try` into the
    HTTP response. */
module Endpoint {
  import opened Wrappers
  import opened Xmla

  /** What the XMLA service hands back for a statement: a non-empty response body as
      `loadXML` leaves it, an empty body, or the message of an exception it throws
      (connection refused, HTTP error status). */
  datatype Delivery =
    | Delivered(doc: Doc)
    | EmptyBody
    | TransportFailed(message: string)

  /** The HTTP response. `Json` is a 200 response with the record array; `ErrorJson`
      is `{"error": …}` with a status code; `Uncaught` is an exception raised outside
      the `try`, which the framework reports through its own error handler. */
  datatype Reply =
    | Json(records: seq<Record>)
    | ErrorJson(status: int, error: string)
    | Uncaught(message: string)

  const FailurePrefix := "OLAP Query Failed: "
  const ServerError := 500

  /** `loadXML` of an empty string throws a `ValueError`. That is an `Error`, not an
      `Exception`, so the `catch (Exception $e)` around the query lets it through. */
  const EmptySourceError := "DOMDocument::loadXML(): Argument #1 ($source) must not be empty"

  /** The message an error reply carries begins with `FailurePrefix`. */
  predicate IsFailureText(s: string)
  {
    |FailurePrefix| <= |s| && s[..|FailurePrefix|] == FailurePrefix
  }

  /** The `catch (\Exception $e)` block: a record array is sent as it is; an
      exception becomes a 500 reply whose text is the prefix followed by the
      exception's message. */
  function Catch(outcome: Result<seq<Record>, string>): (r: Reply)
    ensures r.Json? <==> outcome.Success?
    ensures r.Json? ==> r.records == outcome.value
    ensures outcome.Failure? ==> r == ErrorJson(ServerError, FailurePrefix + outcome.error)
    ensures !r.Json? ==> IsFailureText(r.error)
  {
    match outcome
    case Success(records) => Json(records)
    case Failure(m) => ErrorJson(ServerError, FailurePrefix + m)
  }
}
