/** `handleApiError` in `frontend/src/services/api.js`: the text the
    frontend shows for a failed request.  An axios error is modelled as
    data: the response (status and decoded JSON body) when the server
    answered, whether a request went out, the error code and the error's
    own message.  JavaScript `||` treats the empty string and a missing
    field alike, so an empty string never wins.
 */
module ApiErrors {
  import opened Basics

  /** The `error` and `message` fields of a JSON body; `None` when absent. */
  datatype Body = Body(error: Option<string>, message: Option<string>)

  datatype Response = Response(status: int, data: Option<Body>)

  datatype Failure = Failure(response: Option<Response>, requestSent: bool, code: string, message: string)

  /** A field JavaScript would treat as truthy. */
  predicate Truthy(field: Option<string>) {
    field.Some? && field.value != ""
  }

  const ServerFallback: string := "Server error occurred"
  const Unauthorized: string := "Authentication required. Please login again."
  const Forbidden: string := "Access denied. You do not have permission for this action."
  const NotFound: string := "Resource not found."
  const ServerFault: string := "Server error. Please try again later."
  const Unreachable: string := "Unable to connect to server. Please check your internet connection and try again."
  const DemoMode: string := "Backend server is not running. Using demo mode."
  const Unexpected: string := "An unexpected error occurred. Please try again."

  /** The statuses whose text does not depend on the body. */
  predicate FixedStatus(status: int) {
    status == 401 || status == 403 || status == 404 || status == 500
  }

  /** The server's own explanation: `error`, else `message`, else a
      fallback.  It is never empty. */
  function ServerText(data: Option<Body>): (r: string)
    ensures r != ""
    ensures data.Some? && Truthy(data.value.error) ==> r == data.value.error.value
    ensures data.Some? && !Truthy(data.value.error) && Truthy(data.value.message) ==> r == data.value.message.value
    ensures (data.None? || (!Truthy(data.value.error) && !Truthy(data.value.message))) ==> r == ServerFallback
  {
    if data.Some? && Truthy(data.value.error) then data.value.error.value
    else if data.Some? && Truthy(data.value.message) then data.value.message.value
    else ServerFallback
  }

  /** `handleApiError`.  A response decides first, then a request that got
      no answer, then the refused connection, then the error's own text. */
  function HandleApiError(e: Failure): (r: string)
    ensures r != ""
    ensures e.response.Some? && e.response.value.status == 400 ==>
      r == "Invalid request: " + ServerText(e.response.value.data)
    ensures e.response.Some? && e.response.value.status == 401 ==> r == Unauthorized
    ensures e.response.Some? && e.response.value.status == 403 ==> r == Forbidden
    ensures e.response.Some? && e.response.value.status == 404 ==> r == NotFound
    ensures e.response.Some? && e.response.value.status == 500 ==> r == ServerFault
    ensures e.response.Some? && e.response.value.status != 400 && !FixedStatus(e.response.value.status) ==>
      r == ServerText(e.response.value.data)
    ensures e.response.None? && e.requestSent ==> r == Unreachable
    ensures e.response.None? && !e.requestSent && e.code == "ECONNREFUSED" ==> r == DemoMode
    ensures e.response.None? && !e.requestSent && e.code != "ECONNREFUSED" ==>
      r == (if e.message != "" then e.message else Unexpected)
  {
    match e.response
    case Some(resp) =>
      var text := ServerText(resp.data);
      if resp.status == 400 then "Invalid request: " + text
      else if resp.status == 401 then Unauthorized
      else if resp.status == 403 then Forbidden
      else if resp.status == 404 then NotFound
      else if resp.status == 500 then ServerFault
      else text
    case None =>
      if e.requestSent then Unreachable
      else if e.code == "ECONNREFUSED" then DemoMode
      else if e.message != "" then e.message
      else Unexpected
  }

  /** The code and the error's own text matter only when no request went
      out: a response, or a request that got none, decides first. */
  lemma ContactDecides(e: Failure, code: string, message: string)
    requires e.response.Some? || e.requestSent
    ensures HandleApiError(e) == HandleApiError(e.(code := code, message := message))
  {
  }

  /** For 401, 403, 404 and 500 the body is ignored. */
  lemma FixedStatusIgnoresBody(e: Failure, data: Option<Body>)
    requires e.response.Some? && FixedStatus(e.response.value.status)
    ensures HandleApiError(e) == HandleApiError(e.(response := Some(e.response.value.(data := data))))
  {
  }

  /** Axios's default `validateStatus`: a response outside 2xx rejects the
      request and reaches `handleApiError`; any other resolves it. */
  predicate Rejects(resp: Response) {
    !(200 <= resp.status < 300)
  }

  /** How a backend error reaches the browser.  `sendError` sets the status
      and writes a JSON body whose `error` is the message.  An uncaught PHP
      error leaves the status at its default 200, because `display_errors` is
      on (PHP answers 500 for a fatal error only when it is off), and the
      body is PHP's error text, which is not JSON. */
  function Sent(err: ApiError): (r: Response)
    ensures err.Http? ==> r.status == err.status && r.data == Some(Body(Some(err.message), None))
    ensures err.Fatal? ==> r.status == 200 && r.data.None? && !Rejects(r)
  {
    match err
    case Http(status, msg) => Response(status, Some(Body(Some(msg), None)))
    case Fatal(_) => Response(200, None)
  }

  /** The message a backend handler gives with its error status is what the
      member reads, prefixed for 400, unless the status is one the frontend
      replaces with a fixed text.  An uncaught PHP error never reaches
      `handleApiError`: the request resolves. */
  lemma BackendErrorShown(err: ApiError, requestSent: bool, code: string, message: string)
    requires err.Http? ==> err.message != ""
    ensures err.Fatal? ==> !Rejects(Sent(err))
    ensures err.Http? ==> (Rejects(Sent(err)) <==> !(200 <= err.status < 300))
    ensures var r := HandleApiError(Failure(Some(Sent(err)), requestSent, code, message));
      && (err.Http? && err.status == 400 ==> r == "Invalid request: " + err.message)
      && (err.Http? && Rejects(Sent(err)) && err.status != 400 && !FixedStatus(err.status) ==> r == err.message)
  {
  }
}
