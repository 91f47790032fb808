/**
 * The error outcomes the endpoints report through `abort`, with their
 * HTTP status codes, and the result type the endpoints return.
 */
module Api {

  datatype ApiError =
    | MissingEmail                    // 400: no `email` query parameter
    | InvalidTimezone(zone: string)   // 500: unknown zone name (see `Status`)
    | InvalidEmail(email: string)     // 400: e-mail rejected by the validator
    | NoBookings(email: string)       // 404: nothing booked under that e-mail
    | ClassNotFound(classId: int)     // 404: no class with that id
    | NoSlots(classId: int)           // 400: the class is full
    | AlreadyBooked                   // 409: this e-mail already holds a place in the class

  datatype Result<+T> = Ok(value: T) | Err(error: ApiError)

  /**
   * The status code each error is answered with. The handlers call
   * flask_smorest's `abort(code, message=...)`. The zone check instead calls
   * Flask's own `abort` with that same `message=` keyword, which the
   * exception it builds does not accept, so an unknown zone ends the request
   * with an internal server error rather than a 400.
   */
  function Status(e: ApiError): (code: int)
    ensures code == 400 || code == 404 || code == 409 || code == 500
    ensures code == 500 <==> e.InvalidTimezone?
  {
    match e
    case MissingEmail => 400
    case InvalidTimezone(_) => 500
    case InvalidEmail(_) => 400
    case NoBookings(_) => 404
    case ClassNotFound(_) => 404
    case NoSlots(_) => 400
    case AlreadyBooked => 409
  }
}
