/**
 * src/middleware/error.middleware.ts: the JSON error response Express sends
 * for an error that reached the error handler, given the error's message.
 * The `timestamp` field is left out.
 */
module ErrorMiddleware {
  import opened Text

  /** The status code and the `error` and `details` fields of the body. */
  datatype ErrorResponse = ErrorResponse(status: int, error: string, details: string)

  const QuotaError := "OpenAI API quota exceeded"
  const QuotaDetails :=
    "You have exceeded your OpenAI API usage quota. Please check your billing details or upgrade your plan."
  const DefaultError := "Failed to analyze document"
  const InternalServerError := "Internal Server Error"

  /** A message that reports the provider's HTTP 429 quota refusal. */
  predicate ReportsQuota(message: string) {
    Contains(message, "429") && Contains(message, "quota")
  }

  /**
   * `errorHandler(err, req, res, next)`: a 429 with fixed texts for a quota
   * refusal, otherwise a 500 that passes the message on, or a fixed text
   * when the message is empty. Both words are needed for the 429: a message
   * with only one of them is a plain 500. The details are never empty.
   */
  function ErrorHandler(message: string): (r: ErrorResponse)
    ensures r.status == 429 || r.status == 500
    ensures r.status == 429 <==> ReportsQuota(message)
    ensures r.status == 429 ==> r.error == QuotaError && r.details == QuotaDetails
    ensures r.status == 500 ==> r.error == DefaultError
    ensures r.status == 500 && message != "" ==> r.details == message
    ensures r.details != ""
  {
    if ReportsQuota(message) then ErrorResponse(429, QuotaError, QuotaDetails)
    else ErrorResponse(500, DefaultError, if message != "" then message else InternalServerError)
  }

  /** A message without the digit 4 can never be taken for a quota refusal; it is passed on as it is. */
  lemma NoFourIsPassedOn(message: string)
    requires '4' !in message && message != ""
    ensures ErrorHandler(message) == ErrorResponse(500, DefaultError, message)
  {
    MissingCharNotContained(message, "429", '4');
  }

  /** An empty message is reported as an internal server error. */
  lemma EmptyMessage()
    ensures ErrorHandler("") == ErrorResponse(500, DefaultError, InternalServerError)
  {
    assert !Contains("", "429");
  }
}
