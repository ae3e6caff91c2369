/** Vocabulary shared by every module: optional values, document ids, raw
    bytes, the items of an insertion-ordered dict, and what a route handler
    answers. */
module Base {

  /** Python's `X | None`. */
  datatype Option<+T> = None | Some(value: T)

  /** A Mongo ObjectId. Only equality and freshness matter here, so an id is
      a natural number handed out by a counter each collection carries. */
  type ObjectId = nat

  type Bytes = seq<bv8>

  /** One item of a Python dict; a dict is the sequence of its items in
      insertion order. */
  datatype Entry<+K, +V> = Entry(key: K, value: V)

  /** The answer of a route handler: its return value, or the HTTP error it
      raises. `Forbidden(None)` is the refusal of the admin guard, whose
      message is not part of this model; `ServerError` is an exception that
      no handler catches (status 500). */
  datatype Outcome<+T> =
    | Ok(value: T)
    | NotFound(detail: string)
    | BadRequest(detail: string)
    | Forbidden(reason: Option<string>)
    | Unauthorized(noCredentials: bool)
    | ServerError
}
