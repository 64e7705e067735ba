/** Option, the handlers' error taxonomy, Result, and the middleware decision. */
module Wrappers {

  datatype Option<+T> = None | Some(value: T)

  /** The failure kinds a request handler reports; the HTTP layer maps them to status codes. */
  datatype Error =
    | InvalidInput   // 400: a field is missing, malformed or out of range
    | NotFound       // 404: the referenced record does not exist
    | InvalidState   // 400: the record is not in the lifecycle state the operation needs
    | Conflict       // 400: an institution with a matching name and city already exists
    | Unauthorized   // 401: the admin gate refused the request
    | Unexpected     // 500: the store threw (a schema violation on save, a vanished document)

  datatype Result<+T> = Ok(value: T) | Err(error: Error)

  /** What an express middleware decides: call `next`, or answer the request itself. */
  datatype Gate = Next | Halt(error: Error)
}
