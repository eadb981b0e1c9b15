/** The shape of an Express JSON reply: a status code with either a body or
    an `{ error }` message. */
module Http {

  datatype Reply<+T> =
    | Success(status: int, body: T)
    | Failure(status: int, error: string)
}
