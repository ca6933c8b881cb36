/** Shared result types for the Digishelf model.

    Every backend handler ends either in `sendResponse` (a success) or in
    `sendError(message, status)` (an HTTP error), or it dies with an uncaught
    PHP error.  `ApiError` names the two failure shapes, `Result` carries a
    handler's outcome and `Outcome` is the result of a check that has no value.
 */
module Basics {

  datatype Option<+T> = None | Some(value: T) {
    /** The value, or `default` when absent: PHP's `$x ?? default`. */
    function GetOr(default: T): T {
      if Some? then value else default
    }
  }

  /** `Http` is what `sendError` emits; `Fatal` is an uncaught PHP error
      (a TypeError or DivisionByZeroError) that aborts the script. */
  datatype ApiError = Http(status: int, message: string) | Fatal(reason: string)

  datatype Result<+T> = Ok(value: T) | Err(error: ApiError)

  datatype Outcome = Pass | Fail(error: ApiError)

  /** `sendError($message)` with its default status 400. */
  function BadRequest(message: string): ApiError {
    Http(400, message)
  }

  function Max(a: int, b: int): int {
    if a < b then b else a
  }

  function Abs(x: int): nat {
    if x < 0 then -x else x
  }

  function Min(a: int, b: int): int {
    if a < b then a else b
  }

  /** The rows satisfying `p`, in their original order (an SQL `WHERE`). */
  function Filter<T(!new)>(xs: seq<T>, p: T -> bool): (r: seq<T>)
    ensures |r| <= |xs|
    ensures forall x :: x in r <==> x in xs && p(x)
    ensures forall k :: 0 <= k < |r| ==> p(r[k])
  {
    if xs == [] then []
    else
      var rest := Filter(xs[1..], p);
      assert xs == [xs[0]] + xs[1..];
      if p(xs[0]) then [xs[0]] + rest else rest
  }
}
