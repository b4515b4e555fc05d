/**
  How a response that is not a success becomes an error (packages/sdk-go/error_mapping.go), and which errors
  are worth another attempt (packages/sdk-go/errors.go).
 */
module ErrorMapping {
  import opened Wrappers
  import opened GoNumbers

  /** A JSON value as far as it matters here; a number carries its conversion to a Go int. */
  datatype Json = Text(text: string) | Number(asInt: int) | OtherJson

  /** A response body as `json.Unmarshal` sees it. */
  datatype Body = Empty | NotAnObject | Object(fields: map<string, Json>)

  datatype ApiError =
    | Transport
    | RateLimited(retryAfterSeconds: int)
    | Internal
    | OtherProblem(problem: string)

  const PREFIX: string := "https://errors.driftstack.dev/"

  predicate IsProblem(fields: map<string, Json>)
  {
    "type" in fields && "title" in fields && "status" in fields
  }

  function ProblemType(fields: map<string, Json>): string
  {
    if "type" in fields && fields["type"].Text? then fields["type"].text else ""
  }

  function IntFromProblem(fields: map<string, Json>, key: string): int
  {
    if key in fields && fields[key].Number? then fields[key].asInt else 0
  }

  /** The header's seconds, or the body's when the header gives none. */
  function RetryAfterSeconds(fields: map<string, Json>, header: string): int
  {
    var fromHeader := if ParseInt(header).Some? then ParseInt(header).value else 0;
    if fromHeader == 0 then IntFromProblem(fields, "retry_after_seconds") else fromHeader
  }

  function ErrorFromResponse(body: Body, retryAfterHeader: string): ApiError
  {
    if !body.Object? || !IsProblem(body.fields) then Transport
    else
      var problem := ProblemType(body.fields);
      if problem == PREFIX + "rate-limited" then RateLimited(RetryAfterSeconds(body.fields, retryAfterHeader))
      else if problem == PREFIX + "internal" then Internal
      else OtherProblem(problem)
  }

  predicate IsRetryable(e: ApiError)
  {
    e.Transport? || e.Internal? || e.RateLimited?
  }

  /** Retries follow only bodies that are not problems, and the internal and rate-limited problems. */
  lemma RetryableIff(body: Body, retryAfterHeader: string)
    ensures IsRetryable(ErrorFromResponse(body, retryAfterHeader)) <==>
            || !body.Object?
            || !("type" in body.fields && "title" in body.fields && "status" in body.fields)
            || body.fields["type"] == Text("https://errors.driftstack.dev/internal")
            || body.fields["type"] == Text("https://errors.driftstack.dev/rate-limited")
  {
    hide RetryAfterSeconds;
  }

  /** The number a body gives for how long to wait; 0 if it gives none. */
  function BodyHint(fields: map<string, Json>): int
  {
    if "retry_after_seconds" in fields && fields["retry_after_seconds"].Number?
    then fields["retry_after_seconds"].asInt else 0
  }

  /** A rate limit carries the header's seconds if it is a number other than 0, otherwise the body's. */
  lemma RateLimitHint(fields: map<string, Json>, header: string, n: int)
    requires "type" in fields && "title" in fields && "status" in fields
    requires fields["type"] == Text("https://errors.driftstack.dev/rate-limited")
    ensures Int64(n) && n != 0 && header == FormatInt(n) ==>
              ErrorFromResponse(Object(fields), header) == RateLimited(n)
    ensures ParseInt(header) in {None, Some(0)} ==>
              ErrorFromResponse(Object(fields), header) == RateLimited(BodyHint(fields))
  {
    if Int64(n) {
      ParseFormatted(n);
    }
    hide ParseInt, FormatInt;
  }
}
